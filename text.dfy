/**
 * The .NET string primitives the catalogue and the import job rely on:
 * char.IsWhiteSpace, string.IsNullOrWhiteSpace, string.Trim, and the
 * StringComparer.OrdinalIgnoreCase operations (Equals, Contains, and the
 * LINQ Distinct / Except that take that comparer).
 */
module Text {

  /** char.IsWhiteSpace: the characters Unicode marks White_Space. */
  predicate IsWhiteSpace(c: char)
  {
    c == ' ' || ('\t' <= c <= '\r') || c == '\U{85}' || c == '\U{A0}' || c == '\U{1680}'
    || ('\U{2000}' <= c <= '\U{200A}') || c == '\U{2028}' || c == '\U{2029}'
    || c == '\U{202F}' || c == '\U{205F}' || c == '\U{3000}'
  }

  /** string.IsNullOrWhiteSpace on a non-null string. */
  predicate IsBlank(s: string)
  {
    forall i :: 0 <= i < |s| ==> IsWhiteSpace(s[i])
  }

  /** string.TrimStart(): drops leading white space. */
  function TrimStart(s: string): string
  {
    if s != [] && IsWhiteSpace(s[0]) then TrimStart(s[1..]) else s
  }

  /** string.TrimEnd(): drops trailing white space. */
  function TrimEnd(s: string): string
  {
    if s != [] && IsWhiteSpace(s[|s| - 1]) then TrimEnd(s[..|s| - 1]) else s
  }

  /** string.Trim(): drops leading and trailing white space. */
  function Trim(s: string): string
  {
    TrimEnd(TrimStart(s))
  }

  /** TrimStart removes a prefix made only of white space and stops at the first other character. */
  lemma {:induction false} TrimStartSpec(s: string)
    ensures |TrimStart(s)| <= |s| && TrimStart(s) == s[|s| - |TrimStart(s)|..]
    ensures TrimStart(s) != [] ==> !IsWhiteSpace(TrimStart(s)[0])
    ensures forall i :: 0 <= i < |s| - |TrimStart(s)| ==> IsWhiteSpace(s[i])
  {
    if s != [] && IsWhiteSpace(s[0]) {
      var t := s[1..];
      TrimStartSpec(t);
      var r := TrimStart(t);
      assert TrimStart(s) == r;
      assert s[|s| - |r|..] == t[|t| - |r|..];
      forall i | 0 <= i < |s| - |r| ensures IsWhiteSpace(s[i]) {
        if i > 0 {
          assert s[i] == t[i - 1];
        }
      }
    }
  }

  /** TrimEnd removes a suffix made only of white space and stops at the last other character. */
  lemma {:induction false} TrimEndSpec(s: string)
    ensures |TrimEnd(s)| <= |s| && TrimEnd(s) == s[..|TrimEnd(s)|]
    ensures TrimEnd(s) != [] ==> !IsWhiteSpace(TrimEnd(s)[|TrimEnd(s)| - 1])
    ensures forall i :: |TrimEnd(s)| <= i < |s| ==> IsWhiteSpace(s[i])
  {
    if s != [] && IsWhiteSpace(s[|s| - 1]) {
      var t := s[..|s| - 1];
      TrimEndSpec(t);
      var r := TrimEnd(t);
      assert TrimEnd(s) == r;
      assert s[..|r|] == t[..|r|];
      forall i | |r| <= i < |s| ensures IsWhiteSpace(s[i]) {
        if i < |t| {
          assert s[i] == t[i];
        }
      }
    }
  }

  /**
   * t is the part of s from start on, with only white space before it and
   * after it in s.
   */
  predicate WhiteSpaceAround(s: string, start: int, t: string)
  {
    && 0 <= start && start + |t| <= |s| && t == s[start..start + |t|]
    && (forall k :: 0 <= k < start ==> IsWhiteSpace(s[k]))
    && (forall k :: start + |t| <= k < |s| ==> IsWhiteSpace(s[k]))
  }

  /**
   * Trim cuts a slice out of its input with only white space around it,
   * yields the empty string exactly for a blank input, and otherwise
   * starts and ends with a character that is not white space.
   */
  lemma TrimSpec(s: string)
    ensures exists start :: WhiteSpaceAround(s, start, Trim(s))
    ensures Trim(s) == [] <==> IsBlank(s)
    ensures Trim(s) != [] ==> !IsWhiteSpace(Trim(s)[0]) && !IsWhiteSpace(Trim(s)[|Trim(s)| - 1])
  {
    TrimStartSpec(s);
    var t := TrimStart(s);
    TrimEndSpec(t);
    var r := Trim(s);
    var start := |s| - |t|;
    assert r == s[start..start + |r|] by {
      assert t == s[start..];
      assert r == t[..|r|];
    }
    forall k | start + |r| <= k < |s| ensures IsWhiteSpace(s[k]) {
      assert s[k] == t[k - start];
    }
    assert WhiteSpaceAround(s, start, r);
    if r != [] {
      assert r[0] == t[0];
    } else {
      assert t == [];
    }
  }

  /** A name as the entity constructors store it: trimmed and not blank. */
  predicate IsTrimmedNonBlank(s: string)
  {
    s != [] && !IsWhiteSpace(s[0]) && !IsWhiteSpace(s[|s| - 1])
  }

  lemma TrimmedNonBlank(s: string)
    requires !IsBlank(s)
    ensures IsTrimmedNonBlank(Trim(s)) && !IsBlank(Trim(s))
  {
    TrimSpec(s);
  }

  /** A trimmed string that is not blank is trimmed and non-blank in the constructors' sense. */
  lemma NonBlankTrim(s: string)
    requires !IsBlank(Trim(s))
    ensures IsTrimmedNonBlank(Trim(s))
  {
    TrimSpec(s);
  }

  /** Trimming a trimmed string changes nothing. */
  lemma TrimOfTrimmed(s: string)
    requires IsTrimmedNonBlank(s)
    ensures Trim(s) == s
  {
  }

  lemma TrimIdempotent(s: string)
    ensures Trim(Trim(s)) == Trim(s)
  {
    TrimSpec(s);
    if Trim(s) != [] {
      TrimOfTrimmed(Trim(s));
    }
  }

  /** char.ToUpperInvariant, restricted to ASCII letters. */
  function ToUpper(c: char): char
  {
    if 'a' <= c <= 'z' then (c as int - 32) as char else c
  }

  /** The string with every character passed through ToUpper. */
  function Upper(s: string): (r: string)
    ensures |r| == |s| && forall i :: 0 <= i < |s| ==> r[i] == ToUpper(s[i])
  {
    seq(|s|, i requires 0 <= i < |s| => ToUpper(s[i]))
  }

  /** StringComparer.OrdinalIgnoreCase.Equals */
  predicate EqualsIgnoreCase(a: string, b: string)
  {
    Upper(a) == Upper(b)
  }

  /** Some element of xs equals x under OrdinalIgnoreCase. */
  predicate ContainsIgnoreCase(xs: seq<string>, x: string)
  {
    exists k :: 0 <= k < |xs| && Upper(xs[k]) == Upper(x)
  }

  /** No two elements of xs are equal under OrdinalIgnoreCase. */
  predicate DistinctIgnoringCase(xs: seq<string>)
  {
    forall i, j :: 0 <= i < j < |xs| ==> Upper(xs[i]) != Upper(xs[j])
  }

  /**
   * Enumerable.Distinct(xs, OrdinalIgnoreCase): the elements in order,
   * each kept only if no earlier kept element equals it ignoring case.
   */
  function DistinctIgnoreCase(xs: seq<string>): seq<string>
  {
    if xs == [] then []
    else
      var d := DistinctIgnoreCase(xs[..|xs| - 1]);
      if ContainsIgnoreCase(d, xs[|xs| - 1]) then d else d + [xs[|xs| - 1]]
  }

  /**
   * Distinct returns elements of its input, no two equal ignoring case,
   * and every input element has a case-insensitive match among them; the
   * elements kept are the first of each class, in input order.
   */
  lemma DistinctIgnoreCaseSpec(xs: seq<string>)
    ensures forall k :: 0 <= k < |DistinctIgnoreCase(xs)| ==> DistinctIgnoreCase(xs)[k] in xs
    ensures DistinctIgnoringCase(DistinctIgnoreCase(xs))
    ensures forall x :: x in xs ==> ContainsIgnoreCase(DistinctIgnoreCase(xs), x)
    ensures exists idx :: SelectsInOrder(DistinctIgnoreCase(xs), xs, idx) && FirstPositions(xs, idx)
  {
    DistinctFromInput(xs);
    DistinctNoDuplicates(xs);
    DistinctComplete(xs);
    DistinctKeepsFirst(xs);
  }

  lemma {:induction false} DistinctFromInput(xs: seq<string>)
    ensures forall k :: 0 <= k < |DistinctIgnoreCase(xs)| ==> DistinctIgnoreCase(xs)[k] in xs
  {
    if xs != [] {
      var p := xs[..|xs| - 1];
      var d := DistinctIgnoreCase(p);
      DistinctFromInput(p);
      var r := DistinctIgnoreCase(xs);
      forall k | 0 <= k < |r| ensures r[k] in xs {
        if k < |d| {
          assert r[k] == d[k] && d[k] in p;
        }
      }
    }
  }

  lemma {:induction false} DistinctNoDuplicates(xs: seq<string>)
    ensures DistinctIgnoringCase(DistinctIgnoreCase(xs))
  {
    if xs != [] {
      DistinctNoDuplicates(xs[..|xs| - 1]);
    }
  }

  lemma {:induction false} DistinctComplete(xs: seq<string>)
    ensures forall x :: x in xs ==> ContainsIgnoreCase(DistinctIgnoreCase(xs), x)
  {
    if xs != [] {
      var p := xs[..|xs| - 1];
      var x := xs[|xs| - 1];
      var d := DistinctIgnoreCase(p);
      DistinctComplete(p);
      var r := DistinctIgnoreCase(xs);
      forall y | y in xs ensures ContainsIgnoreCase(r, y) {
        if y in p {
          var k :| 0 <= k < |d| && Upper(d[k]) == Upper(y);
          assert r[k] == d[k];
        } else if !ContainsIgnoreCase(d, x) {
          assert r[|d|] == y;
        }
      }
    }
  }

  /** Position i of xs holds the first element of xs in its case-insensitive class. */
  predicate FirstOfKind(xs: seq<string>, i: int)
  {
    0 <= i < |xs| && !ContainsIgnoreCase(xs[..i], xs[i])
  }

  /** out is xs at the strictly increasing positions idx. */
  predicate SelectsInOrder(out: seq<string>, xs: seq<string>, idx: seq<int>)
  {
    && |idx| == |out|
    && (forall k :: 0 <= k < |idx| ==> 0 <= idx[k] < |xs| && out[k] == xs[idx[k]])
    && (forall k, l :: 0 <= k < l < |idx| ==> idx[k] < idx[l])
  }

  /** idx holds exactly the positions of xs that are first in their class. */
  predicate FirstPositions(xs: seq<string>, idx: seq<int>)
  {
    && (forall k :: 0 <= k < |idx| ==> FirstOfKind(xs, idx[k]))
    && (forall i :: 0 <= i < |xs| && FirstOfKind(xs, i) ==> i in idx)
  }

  /**
   * Distinct keeps, in input order, exactly the first element of each
   * class of elements equal ignoring case.
   */
  lemma {:induction false} DistinctKeepsFirst(xs: seq<string>)
    ensures exists idx :: SelectsInOrder(DistinctIgnoreCase(xs), xs, idx) && FirstPositions(xs, idx)
  {
    if xs == [] {
      assert SelectsInOrder([], xs, []) && FirstPositions(xs, []);
    } else {
      var p := xs[..|xs| - 1];
      DistinctKeepsFirst(p);
      var idx :| SelectsInOrder(DistinctIgnoreCase(p), p, idx) && FirstPositions(p, idx);
      SelectsStep(xs, idx);
      PositionsStep(xs, idx);
    }
  }

  /** The positions Distinct keeps after one more element: one more exactly when it is new. */
  function NextPositions(xs: seq<string>, idx: seq<int>): seq<int>
    requires xs != []
  {
    if ContainsIgnoreCase(xs[..|xs| - 1], xs[|xs| - 1]) then idx else idx + [|xs| - 1]
  }

  lemma SelectsStep(xs: seq<string>, idx: seq<int>)
    requires xs != []
    requires SelectsInOrder(DistinctIgnoreCase(xs[..|xs| - 1]), xs[..|xs| - 1], idx)
    ensures SelectsInOrder(DistinctIgnoreCase(xs), xs, NextPositions(xs, idx))
  {
    var p, x := xs[..|xs| - 1], xs[|xs| - 1];
    var keep := !ContainsIgnoreCase(p, x);
    DistinctSeesInput(p, x);
    var d := DistinctIgnoreCase(p);
    assert DistinctIgnoreCase(xs) == if keep then d + [x] else d;
    assert NextPositions(xs, idx) == if keep then idx + [|p|] else idx;
    SelectsSnoc(d, xs, idx, keep);
  }

  /** Selection in order survives one more input element, kept in the output or not. */
  lemma SelectsSnoc(out: seq<string>, xs: seq<string>, idx: seq<int>, keep: bool)
    requires xs != [] && SelectsInOrder(out, xs[..|xs| - 1], idx)
    ensures SelectsInOrder(if keep then out + [xs[|xs| - 1]] else out, xs, if keep then idx + [|xs| - 1] else idx)
  {
    var out' := if keep then out + [xs[|xs| - 1]] else out;
    var idx' := if keep then idx + [|xs| - 1] else idx;
    forall k | 0 <= k < |idx'| ensures 0 <= idx'[k] < |xs| && out'[k] == xs[idx'[k]] {
      if k < |idx| {
        assert idx'[k] == idx[k] && out'[k] == out[k] && out[k] == xs[..|xs| - 1][idx[k]];
      }
    }
    forall k, l | 0 <= k < l < |idx'| ensures idx'[k] < idx'[l] {
      assert idx'[k] == idx[k];
    }
  }

  lemma PositionsStep(xs: seq<string>, idx: seq<int>)
    requires xs != []
    requires forall k :: 0 <= k < |idx| ==> 0 <= idx[k] < |xs| - 1
    requires FirstPositions(xs[..|xs| - 1], idx)
    ensures FirstPositions(xs, NextPositions(xs, idx))
  {
    var p := xs[..|xs| - 1];
    forall i | 0 <= i < |p| ensures FirstOfKind(xs, i) == FirstOfKind(p, i) {
      FirstOfKindPrefix(xs, i);
    }
    if ContainsIgnoreCase(p, xs[|p|]) {
      PositionsKeep(xs, idx, idx);
    } else {
      PositionsKeep(xs, idx, idx + [|p|]);
    }
  }

  /** Whether a position is first in its class does not depend on later elements. */
  lemma FirstOfKindPrefix(xs: seq<string>, i: int)
    requires 0 <= i < |xs| - 1
    ensures FirstOfKind(xs, i) == FirstOfKind(xs[..|xs| - 1], i)
  {
    assert xs[..i] == xs[..|xs| - 1][..i];
  }

  /** The positions idx' of xs extend those of its prefix by the last one exactly when it is first. */
  lemma PositionsKeep(xs: seq<string>, idx: seq<int>, idx': seq<int>)
    requires xs != []
    requires forall i :: 0 <= i < |xs| - 1 ==> FirstOfKind(xs, i) == FirstOfKind(xs[..|xs| - 1], i)
    requires FirstPositions(xs[..|xs| - 1], idx)
    requires idx' == if FirstOfKind(xs, |xs| - 1) then idx + [|xs| - 1] else idx
    ensures FirstPositions(xs, idx')
  {
    var p := xs[..|xs| - 1];
    forall k | 0 <= k < |idx'| ensures FirstOfKind(xs, idx'[k]) {
      if k < |idx| {
        assert idx'[k] == idx[k] && FirstOfKind(p, idx[k]);
      }
    }
    forall i | 0 <= i < |xs| && FirstOfKind(xs, i) ensures i in idx' {
      if i < |p| {
        assert FirstOfKind(p, i);
      }
    }
  }

  /** What Distinct has kept so far matches x ignoring case exactly when its input does. */
  lemma DistinctSeesInput(xs: seq<string>, x: string)
    ensures ContainsIgnoreCase(DistinctIgnoreCase(xs), x) <==> ContainsIgnoreCase(xs, x)
  {
    var d := DistinctIgnoreCase(xs);
    DistinctFromInput(xs);
    DistinctComplete(xs);
    if ContainsIgnoreCase(d, x) {
      var k :| 0 <= k < |d| && Upper(d[k]) == Upper(x);
      assert d[k] in xs;
      var j :| 0 <= j < |xs| && xs[j] == d[k];
    }
    if ContainsIgnoreCase(xs, x) {
      var j :| 0 <= j < |xs| && Upper(xs[j]) == Upper(x);
      assert xs[j] in xs;
      var k :| 0 <= k < |d| && Upper(d[k]) == Upper(xs[j]);
    }
  }

  /**
   * Enumerable.Except(first, second, OrdinalIgnoreCase): the elements of
   * first, in order, that match nothing in second and no element already
   * returned.
   */
  function ExceptIgnoreCase(first: seq<string>, second: seq<string>): seq<string>
    decreases |first|
  {
    if first == [] then []
    else if ContainsIgnoreCase(second, first[0]) then ExceptIgnoreCase(first[1..], second)
    else [first[0]] + ExceptIgnoreCase(first[1..], second + [first[0]])
  }

  /** Every element Except returns comes from first and matches nothing in second. */
  lemma {:induction false} ExceptIgnoreCaseSpec(first: seq<string>, second: seq<string>)
    ensures forall k :: 0 <= k < |ExceptIgnoreCase(first, second)| ==>
      ExceptIgnoreCase(first, second)[k] in first && !ContainsIgnoreCase(second, ExceptIgnoreCase(first, second)[k])
    decreases |first|
  {
    if first != [] {
      if ContainsIgnoreCase(second, first[0]) {
        ExceptIgnoreCaseSpec(first[1..], second);
      } else {
        var second' := second + [first[0]];
        ExceptIgnoreCaseSpec(first[1..], second');
        var rest := ExceptIgnoreCase(first[1..], second');
        forall k | 0 <= k < |rest| ensures !ContainsIgnoreCase(second, rest[k]) {
          forall j | 0 <= j < |second| ensures Upper(second[j]) != Upper(rest[k]) {
            assert second'[j] == second[j];
          }
        }
      }
    }
  }

  /**
   * On a first list without case-insensitive duplicates, Except keeps
   * exactly the elements that match nothing in second.
   */
  lemma {:induction false} ExceptKeeps(first: seq<string>, second: seq<string>, x: string)
    requires DistinctIgnoringCase(first)
    requires x in first && !ContainsIgnoreCase(second, x)
    ensures x in ExceptIgnoreCase(first, second)
    decreases |first|
  {
    if first[0] != x {
      assert x in first[1..];
      var rest := first[1..];
      assert DistinctIgnoringCase(rest) by {
        forall i, j | 0 <= i < j < |rest| ensures !EqualsIgnoreCase(rest[i], rest[j]) {
          assert rest[i] == first[i + 1] && rest[j] == first[j + 1];
        }
      }
      if ContainsIgnoreCase(second, first[0]) {
        ExceptKeeps(rest, second, x);
      } else {
        var i :| 0 <= i < |rest| && rest[i] == x;
        assert !EqualsIgnoreCase(first[0], first[i + 1]);
        assert !ContainsIgnoreCase(second + [first[0]], x) by {
          forall j | 0 <= j < |second| + 1
            ensures !EqualsIgnoreCase((second + [first[0]])[j], x)
          {
            if j < |second| {
              assert (second + [first[0]])[j] == second[j];
            }
          }
        }
        ExceptKeeps(rest, second + [first[0]], x);
      }
    }
  }

  /** Except returns nothing when every element of first matches something in second. */
  lemma {:induction false} ExceptAllMatched(first: seq<string>, second: seq<string>)
    requires forall x :: x in first ==> ContainsIgnoreCase(second, x)
    ensures ExceptIgnoreCase(first, second) == []
    decreases |first|
  {
    if first != [] {
      assert first[0] in first;
      assert forall x :: x in first[1..] ==> x in first;
      ExceptAllMatched(first[1..], second);
    }
  }
}
