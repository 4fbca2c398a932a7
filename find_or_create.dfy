/**
 * The name handling shared by FindOrCreateAuthorsAsync and
 * FindOrCreateGenresAsync: normalise the requested names, look up the
 * stored entities with those exact names, and pick the names still to
 * create. An entity is seen only through its name (nameOf).
 */
module FindOrCreate {
  import opened Text

  /** names.Where(n => !IsNullOrWhiteSpace(n)).Select(n => n.Trim()) */
  function NonBlankTrimmed(names: seq<string>): seq<string>
  {
    if names == [] then []
    else
      var n := names[|names| - 1];
      NonBlankTrimmed(names[..|names| - 1]) + if IsBlank(n) then [] else [Trim(n)]
  }

  /** ... .Distinct(StringComparer.OrdinalIgnoreCase): the list called distinct. */
  function Normalise(names: seq<string>): seq<string>
  {
    DistinctIgnoreCase(NonBlankTrimmed(names))
  }

  /** context.X.Where(x => distinct.Contains(x.Name)): stored entities whose name is wanted, exactly. */
  function Matching<T>(store: seq<T>, nameOf: T -> string, wanted: seq<string>): seq<T>
  {
    if store == [] then []
    else
      var x := store[|store| - 1];
      Matching(store[..|store| - 1], nameOf, wanted) + if nameOf(x) in wanted then [x] else []
  }

  /** Looking up no names finds nothing. */
  lemma {:induction false} MatchingNothing<T>(store: seq<T>, nameOf: T -> string)
    ensures Matching(store, nameOf, []) == []
  {
    if store != [] {
      MatchingNothing(store[..|store| - 1], nameOf);
    }
  }

  /** xs.Select(x => x.Name) */
  function NamesOf<T>(xs: seq<T>, nameOf: T -> string): (r: seq<string>)
    ensures |r| == |xs| && forall k :: 0 <= k < |xs| ==> r[k] == nameOf(xs[k])
  {
    seq(|xs|, k requires 0 <= k < |xs| => nameOf(xs[k]))
  }

  /** toCreate's names: distinct.Except(existing.Select(x => x.Name), OrdinalIgnoreCase) */
  function NamesToCreate<T>(store: seq<T>, nameOf: T -> string, names: seq<string>): seq<string>
  {
    var distinct := Normalise(names);
    ExceptIgnoreCase(distinct, NamesOf(Matching(store, nameOf, distinct), nameOf))
  }

  /** A requested name the normalisation keeps. */
  predicate NonBlank(n: string)
  {
    !IsBlank(n)
  }

  /**
   * out is g of xs at the strictly increasing positions idx, which are
   * exactly the positions whose element passes keep.
   */
  predicate MapsInOrder(out: seq<string>, xs: seq<string>, idx: seq<int>, keep: string -> bool, g: string -> string)
  {
    && |idx| == |out|
    && (forall k :: 0 <= k < |idx| ==> 0 <= idx[k] < |xs| && keep(xs[idx[k]]) && out[k] == g(xs[idx[k]]))
    && (forall k, l :: 0 <= k < l < |idx| ==> idx[k] < idx[l])
    && (forall i :: 0 <= i < |xs| && keep(xs[i]) ==> i in idx)
  }

  /**
   * Dropping the blank names and trimming the others keeps the request
   * order: the result is the trimmed names at exactly the positions of the
   * non-blank ones, in increasing order.
   */
  lemma {:induction false} NonBlankTrimmedInOrder(names: seq<string>)
    ensures exists idx :: MapsInOrder(NonBlankTrimmed(names), names, idx, NonBlank, Trim)
  {
    if names == [] {
      assert NonBlankTrimmed(names) == [];
      assert MapsInOrder(NonBlankTrimmed(names), names, [], NonBlank, Trim);
    } else {
      var p, n := names[..|names| - 1], names[|names| - 1];
      NonBlankTrimmedInOrder(p);
      var idx :| MapsInOrder(NonBlankTrimmed(p), p, idx, NonBlank, Trim);
      assert NonBlankTrimmed(names) == NonBlankTrimmed(p) + if NonBlank(n) then [Trim(n)] else [];
      MapsSnoc(NonBlankTrimmed(p), names, idx, NonBlank, Trim);
    }
  }

  /** The order-keeping map survives one more input element. */
  lemma MapsSnoc(out: seq<string>, xs: seq<string>, idx: seq<int>, keep: string -> bool, g: string -> string)
    requires xs != [] && MapsInOrder(out, xs[..|xs| - 1], idx, keep, g)
    ensures var x := xs[|xs| - 1];
      MapsInOrder(out + (if keep(x) then [g(x)] else []), xs, if keep(x) then idx + [|xs| - 1] else idx, keep, g)
  {
    var x := xs[|xs| - 1];
    if keep(x) {
      MapsKeep(out, xs, idx, keep, g);
    } else {
      MapsSkip(out, xs, idx, keep, g);
      assert out + [] == out;
    }
  }

  lemma MapsKeep(out: seq<string>, xs: seq<string>, idx: seq<int>, keep: string -> bool, g: string -> string)
    requires xs != [] && MapsInOrder(out, xs[..|xs| - 1], idx, keep, g) && keep(xs[|xs| - 1])
    ensures MapsInOrder(out + [g(xs[|xs| - 1])], xs, idx + [|xs| - 1], keep, g)
  {
    var p := xs[..|xs| - 1];
    var out', idx' := out + [g(xs[|xs| - 1])], idx + [|p|];
    forall k | 0 <= k < |idx'| ensures 0 <= idx'[k] < |xs| && keep(xs[idx'[k]]) && out'[k] == g(xs[idx'[k]]) {
      if k < |idx| {
        assert idx'[k] == idx[k] && out'[k] == out[k] && xs[idx[k]] == p[idx[k]];
      }
    }
    forall k, l | 0 <= k < l < |idx'| ensures idx'[k] < idx'[l] {
      assert idx'[k] == idx[k];
    }
    forall i | 0 <= i < |xs| && keep(xs[i]) ensures i in idx' {
      if i < |p| {
        assert xs[i] == p[i];
      }
    }
  }

  lemma MapsSkip(out: seq<string>, xs: seq<string>, idx: seq<int>, keep: string -> bool, g: string -> string)
    requires xs != [] && MapsInOrder(out, xs[..|xs| - 1], idx, keep, g) && !keep(xs[|xs| - 1])
    ensures MapsInOrder(out, xs, idx, keep, g)
  {
    var p := xs[..|xs| - 1];
    forall i | 0 <= i < |xs| && keep(xs[i]) ensures i in idx {
      assert xs[i] == p[i];
    }
  }

  lemma {:induction false} NonBlankTrimmedSpec(names: seq<string>)
    ensures forall t :: t in NonBlankTrimmed(names) ==> IsTrimmedNonBlank(t) && exists n :: n in names && t == Trim(n)
    ensures forall n :: n in names && !IsBlank(n) ==> Trim(n) in NonBlankTrimmed(names)
  {
    if names != [] {
      var p := names[..|names| - 1];
      var n := names[|names| - 1];
      NonBlankTrimmedSpec(p);
      if !IsBlank(n) {
        TrimmedNonBlank(n);
      }
      assert forall m :: m in names <==> m in p || m == n;
    }
  }

  /**
   * The normalised names are trimmed, non-blank and pairwise different
   * ignoring case; each is the trimmed form of a requested name, and
   * every non-blank requested name has a case-insensitive match among them.
   * In order: the trimmed non-blank names keep the request order, and of
   * those the first of each case-insensitive class is kept, in order.
   */
  lemma NormaliseSpec(names: seq<string>)
    ensures forall t :: t in Normalise(names) ==> IsTrimmedNonBlank(t) && exists n :: n in names && t == Trim(n)
    ensures DistinctIgnoringCase(Normalise(names))
    ensures forall n :: n in names && !IsBlank(n) ==> ContainsIgnoreCase(Normalise(names), Trim(n))
    ensures exists idx :: MapsInOrder(NonBlankTrimmed(names), names, idx, NonBlank, Trim)
    ensures exists idx :: SelectsInOrder(Normalise(names), NonBlankTrimmed(names), idx) && FirstPositions(NonBlankTrimmed(names), idx)
  {
    NonBlankTrimmedSpec(names);
    NonBlankTrimmedInOrder(names);
    DistinctIgnoreCaseSpec(NonBlankTrimmed(names));
    var d := Normalise(names);
    forall t | t in d ensures IsTrimmedNonBlank(t) && exists n :: n in names && t == Trim(n) {
      var k :| 0 <= k < |d| && d[k] == t;
    }
  }

  /** Only blank names requested: nothing is left after normalisation. */
  lemma {:induction false} NormaliseAllBlank(names: seq<string>)
    requires forall n :: n in names ==> IsBlank(n)
    ensures Normalise(names) == []
  {
    if names != [] {
      var p := names[..|names| - 1];
      assert forall n :: n in p ==> n in names;
      NormaliseAllBlank(p);
      assert NonBlankTrimmed(names) == NonBlankTrimmed(p) by {
        assert names[|names| - 1] in names;
      }
    }
  }

  /** The lookup returns exactly the stored entities whose name is one of the wanted names. */
  lemma {:induction false} MatchingSpec<T>(store: seq<T>, nameOf: T -> string, wanted: seq<string>)
    ensures forall x :: x in Matching(store, nameOf, wanted) <==> x in store && nameOf(x) in wanted
  {
    if store != [] {
      var p := store[..|store| - 1];
      MatchingSpec(p, nameOf, wanted);
      assert forall x :: x in store <==> x in p || x == store[|store| - 1];
    }
  }

  /** Except over a list without case-insensitive duplicates keeps it free of them. */
  lemma {:induction false} ExceptKeepsDistinct(first: seq<string>, second: seq<string>)
    requires DistinctIgnoringCase(first)
    ensures DistinctIgnoringCase(ExceptIgnoreCase(first, second))
    decreases |first|
  {
    if first != [] {
      var rest := first[1..];
      assert DistinctIgnoringCase(rest) by {
        forall i, j | 0 <= i < j < |rest| ensures Upper(rest[i]) != Upper(rest[j]) {
          assert rest[i] == first[i + 1] && rest[j] == first[j + 1];
        }
      }
      if ContainsIgnoreCase(second, first[0]) {
        ExceptKeepsDistinct(rest, second);
      } else {
        var tail := ExceptIgnoreCase(rest, second + [first[0]]);
        ExceptKeepsDistinct(rest, second + [first[0]]);
        ExceptIgnoreCaseSpec(rest, second + [first[0]]);
        forall k | 0 <= k < |tail| ensures Upper(first[0]) != Upper(tail[k]) {
          assert (second + [first[0]])[|second|] == first[0];
        }
        var r := [first[0]] + tail;
        forall i, j | 0 <= i < j < |r| ensures Upper(r[i]) != Upper(r[j]) {
          if i > 0 {
            assert r[i] == tail[i - 1] && r[j] == tail[j - 1];
          } else {
            assert r[j] == tail[j - 1];
          }
        }
      }
    }
  }

  /**
   * The names to create are normalised requested names, pairwise
   * different ignoring case, none matching a found entity's name ignoring
   * case; and every normalised name not matched by a found entity is
   * among them.
   */
  lemma NamesToCreateSpec<T>(store: seq<T>, nameOf: T -> string, names: seq<string>)
    ensures var existing := NamesOf(Matching(store, nameOf, Normalise(names)), nameOf);
      && (forall t :: t in NamesToCreate(store, nameOf, names) ==> t in Normalise(names) && !ContainsIgnoreCase(existing, t))
      && DistinctIgnoringCase(NamesToCreate(store, nameOf, names))
      && (forall t :: t in Normalise(names) && !ContainsIgnoreCase(existing, t) ==> t in NamesToCreate(store, nameOf, names))
  {
    var distinct := Normalise(names);
    var existing := NamesOf(Matching(store, nameOf, distinct), nameOf);
    var toCreate := NamesToCreate(store, nameOf, names);
    NormaliseSpec(names);
    ExceptIgnoreCaseSpec(distinct, existing);
    ExceptKeepsDistinct(distinct, existing);
    forall t | t in toCreate ensures t in distinct && !ContainsIgnoreCase(existing, t) {
      var k :| 0 <= k < |toCreate| && toCreate[k] == t;
    }
    forall t | t in distinct && !ContainsIgnoreCase(existing, t) ensures t in toCreate {
      ExceptKeeps(distinct, existing, t);
    }
  }

  /**
   * The found entities followed by the created ones cover the request:
   * every non-blank requested name matches, ignoring case, the name of
   * one of them.
   */
  lemma FoundOrCreatedCoverRequest<T>(store: seq<T>, nameOf: T -> string, names: seq<string>, created: seq<T>)
    requires NamesOf(created, nameOf) == NamesToCreate(store, nameOf, names)
    ensures forall n :: n in names && !IsBlank(n) ==>
      ContainsIgnoreCase(NamesOf(Matching(store, nameOf, Normalise(names)) + created, nameOf), Trim(n))
  {
    var distinct := Normalise(names);
    var all := NamesOf(Matching(store, nameOf, distinct) + created, nameOf);
    NormaliseSpec(names);
    forall n | n in names && !IsBlank(n) ensures ContainsIgnoreCase(all, Trim(n)) {
      var i :| 0 <= i < |distinct| && Upper(distinct[i]) == Upper(Trim(n));
      FoundOrCreatedCoverName(store, nameOf, names, created, distinct[i]);
      var k :| 0 <= k < |all| && Upper(all[k]) == Upper(distinct[i]);
    }
  }

  /** One normalised name is matched, ignoring case, by a found or a created entity. */
  lemma FoundOrCreatedCoverName<T>(store: seq<T>, nameOf: T -> string, names: seq<string>, created: seq<T>, d: string)
    requires NamesOf(created, nameOf) == NamesToCreate(store, nameOf, names)
    requires d in Normalise(names)
    ensures ContainsIgnoreCase(NamesOf(Matching(store, nameOf, Normalise(names)) + created, nameOf), d)
  {
    var found := Matching(store, nameOf, Normalise(names));
    var all := NamesOf(found + created, nameOf);
    if ContainsIgnoreCase(NamesOf(found, nameOf), d) {
      var k :| 0 <= k < |found| && Upper(nameOf(found[k])) == Upper(d);
      assert all[k] == nameOf(found[k]);
    } else {
      NamesToCreateSpec(store, nameOf, names);
      assert d in NamesToCreate(store, nameOf, names);
      var k :| 0 <= k < |created| && nameOf(created[k]) == d;
      assert all[|found| + k] == d;
    }
  }

  /**
   * Running find-or-create a second time with the same names, after the
   * first run added its created entities to the store, creates nothing.
   */
  lemma FindOrCreateIdempotent<T>(store: seq<T>, nameOf: T -> string, names: seq<string>, created: seq<T>)
    requires NamesOf(created, nameOf) == NamesToCreate(store, nameOf, names)
    ensures NamesToCreate(store + created, nameOf, names) == []
  {
    var distinct := Normalise(names);
    var found := Matching(store, nameOf, distinct);
    var found' := Matching(store + created, nameOf, distinct);
    var existing' := NamesOf(found', nameOf);
    NormaliseSpec(names);
    NamesToCreateSpec(store, nameOf, names);
    MatchingSpec(store, nameOf, distinct);
    MatchingSpec(store + created, nameOf, distinct);
    forall d | d in distinct ensures ContainsIgnoreCase(existing', d) {
      var x: T;
      if ContainsIgnoreCase(NamesOf(found, nameOf), d) {
        var k :| 0 <= k < |found| && Upper(nameOf(found[k])) == Upper(d);
        x := found[k];
        assert x in found;
      } else {
        assert d in NamesToCreate(store, nameOf, names);
        var k :| 0 <= k < |created| && nameOf(created[k]) == d;
        x := created[k];
        assert nameOf(x) in distinct;
      }
      assert x in store + created && Upper(nameOf(x)) == Upper(d);
      var j :| 0 <= j < |found'| && found'[j] == x;
      assert existing'[j] == nameOf(x);
    }
    ExceptAllMatched(distinct, existing');
  }
}
