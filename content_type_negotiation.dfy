/**
 * Content negotiation in `content-type.js`: the two orderings `select` sorts
 * by, the comparison `mediaCmp` that decides whether an accepted type covers
 * an available one, and the search for the first such pair.
 */
module ContentTypeNegotiation {
  import opened Wrappers
  import opened Header
  import opened ContentType

  // ---------------------------------------------------------------------
  // The two orderings
  // ---------------------------------------------------------------------

  /** `a.q === b.q`: `NaN` equals nothing, not even itself. */
  predicate SameQ(a: Quality, b: Quality) {
    (a.NoQ? && b.NoQ?) || (a.Num? && b.Num? && a.value == b.value)
  }

  /** `a.q > b.q`: false as soon as either side is `undefined` or `NaN`. */
  predicate Greater(a: Quality, b: Quality) {
    a.Num? && b.Num? && a.value > b.value
  }

  /** The comparator of `sortByQuality`: no `q` first, then higher `q` first. */
  function QualityCmp(a: MT, b: MT): (r: int) {
    if SameQ(a.q, b.q) then 0
    else if a.q.NoQ? && !b.q.NoQ? then -1
    else if b.q.NoQ? && !a.q.NoQ? then 1
    else if Greater(a.q, b.q) then -1
    else 1
  }

  /** The comparator of `sortBySpecificity`: wildcards last, then more parameters first. */
  function SpecificityCmp(a: MT, b: MT): (r: int) {
    var ma, mb := MainType(a.fullType) == "*", MainType(b.fullType) == "*";
    var sa, sb := SubType(a.fullType) == Some("*"), SubType(b.fullType) == Some("*");
    if ma && !mb then 1
    else if mb && !ma then -1
    else if sa && !sb then 1
    else if sb && !sa then -1
    else if |a.params| < |b.params| then 1
    else if |b.params| < |a.params| then -1
    else 0
  }

  /** Every type: the specificity comparator orders them all. */
  predicate AnyType(m: MT) {
    true
  }

  /**
   * A type whose `q` is not `NaN`: the quality comparator orders these, and
   * only these, since a `NaN` compares as greater than everything, itself
   * included.
   */
  predicate NotNaN(m: MT) {
    !m.q.NaN?
  }

  /** `cmp` is antisymmetric and transitive on the elements `ok` admits. */
  ghost predicate Consistent<T(!new)>(cmp: (T, T) -> int, ok: T -> bool) {
    && (forall a, b :: ok(a) && ok(b) ==> cmp(b, a) == -cmp(a, b))
    && (forall a, b, c :: ok(a) && ok(b) && ok(c) && cmp(a, b) <= 0 && cmp(b, c) <= 0 ==> cmp(a, c) <= 0)
  }

  ghost predicate AllOk<T>(ok: T -> bool, s: seq<T>) {
    forall i {:trigger ok(s[i])} :: 0 <= i < |s| ==> ok(s[i])
  }

  ghost predicate Sorted<T>(cmp: (T, T) -> int, s: seq<T>) {
    forall i, j {:trigger cmp(s[i], s[j])} :: 0 <= i < j < |s| ==> cmp(s[i], s[j]) <= 0
  }

  lemma SpecificityConsistent()
    ensures Consistent(SpecificityCmp, AnyType)
  {
    forall a, b, c | SpecificityCmp(a, b) <= 0 && SpecificityCmp(b, c) <= 0
      ensures SpecificityCmp(a, c) <= 0
    {
    }
  }

  lemma QualityConsistent()
    ensures Consistent(QualityCmp, NotNaN)
  {
    forall a, b, c | NotNaN(a) && NotNaN(b) && NotNaN(c) && QualityCmp(a, b) <= 0 && QualityCmp(b, c) <= 0
      ensures QualityCmp(a, c) <= 0
    {
    }
  }

  /** A `NaN` quality breaks the order: the comparator puts it after itself. */
  lemma NaNAfterItself(m: MT)
    requires m.q.NaN?
    ensures QualityCmp(m, m) == 1
  {
  }

  /**
   * Halfway through inserting `s[j]` into the sorted prefix `s[..n]`: the
   * prefix without position `j` is in order, and `s[j]` comes before
   * everything after it.
   */
  ghost predicate Inserting<T>(cmp: (T, T) -> int, s: seq<T>, j: nat, n: nat)
    requires j < n <= |s|
  {
    && (forall p, q {:trigger cmp(s[p], s[q])} :: 0 <= p < q < n && p != j && q != j ==> cmp(s[p], s[q]) <= 0)
    && (forall q {:trigger cmp(s[j], s[q])} :: j < q < n ==> cmp(s[j], s[q]) <= 0)
  }

  lemma StartInsert<T>(cmp: (T, T) -> int, s: seq<T>, i: nat)
    requires i < |s| && Sorted(cmp, s[..i])
    ensures Inserting(cmp, s, i, i + 1)
  {
    forall p, q | 0 <= p < q < i + 1 && p != i && q != i ensures cmp(s[p], s[q]) <= 0 {
      assert s[..i][p] == s[p] && s[..i][q] == s[q];
    }
  }

  /** `s` with its elements at `j - 1` and `j` exchanged. */
  function Swapped<T>(s: seq<T>, j: nat): (r: seq<T>)
    requires 0 < j < |s|
    ensures |r| == |s| && r[j - 1] == s[j] && r[j] == s[j - 1]
    ensures forall k :: 0 <= k < |s| && k != j - 1 && k != j ==> r[k] == s[k]
  {
    s[j - 1 := s[j]][j := s[j - 1]]
  }

  /** A swap keeps the elements. */
  lemma SwappedPerm<T>(s: seq<T>, j: nat)
    requires 0 < j < |s|
    ensures multiset(Swapped(s, j)) == multiset(s)
  {
  }

  lemma SwapStep<T(!new)>(cmp: (T, T) -> int, ok: T -> bool, s: seq<T>, j: nat, n: nat)
    requires 0 < j < n <= |s| && Consistent(cmp, ok) && AllOk(ok, s)
    requires Inserting(cmp, s, j, n) && cmp(s[j - 1], s[j]) > 0
    ensures Inserting(cmp, Swapped(s, j), j - 1, n)
  {
    var t := Swapped(s, j);
    assert cmp(s[j], s[j - 1]) == -cmp(s[j - 1], s[j]);
    forall p, q | 0 <= p < q < n && p != j - 1 && q != j - 1 ensures cmp(t[p], t[q]) <= 0 {
      if p == j {
        assert t[p] == s[j - 1];
      } else if q == j {
        assert t[q] == s[j - 1];
      }
    }
  }

  lemma EndInsert<T(!new)>(cmp: (T, T) -> int, ok: T -> bool, s: seq<T>, j: nat, n: nat)
    requires j < n <= |s| && Consistent(cmp, ok) && AllOk(ok, s)
    requires Inserting(cmp, s, j, n)
    requires j == 0 || cmp(s[j - 1], s[j]) <= 0
    ensures Sorted(cmp, s[..n])
  {
    forall p, q | 0 <= p < q < n ensures cmp(s[p], s[q]) <= 0 {
      if q == j && p < j - 1 {
        assert ok(s[p]) && ok(s[j - 1]) && ok(s[j]);
        assert cmp(s[p], s[j - 1]) <= 0;
      }
    }
  }

  /**
   * The state of the insertion of the element at `n - 1`: when the
   * comparator is consistent on the elements, it has reached position `j`.
   */
  ghost predicate InsertState<T(!new)>(cmp: (T, T) -> int, ok: T -> bool, s: seq<T>, j: nat, n: nat, usable: bool) {
    && j < n <= |s|
    && (usable ==> AllOk(ok, s) && Inserting(cmp, s, j, n))
  }

  lemma InsertStart<T(!new)>(cmp: (T, T) -> int, ok: T -> bool, s: seq<T>, i: nat, usable: bool)
    requires i < |s|
    requires usable ==> Consistent(cmp, ok) && AllOk(ok, s) && Sorted(cmp, s[..i])
    ensures InsertState(cmp, ok, s, i, i + 1, usable)
  {
    if usable {
      StartInsert(cmp, s, i);
    }
  }

  /** A swap of two neighbours that were out of order moves the insertion one step down. */
  lemma InsertSwap<T(!new)>(cmp: (T, T) -> int, ok: T -> bool, s: seq<T>, j: nat, n: nat, usable: bool)
    requires InsertState(cmp, ok, s, j, n, usable) && (usable ==> Consistent(cmp, ok))
    requires 0 < j && cmp(s[j - 1], s[j]) > 0
    ensures InsertState(cmp, ok, Swapped(s, j), j - 1, n, usable)
  {
    if usable {
      SwapStep(cmp, ok, s, j, n);
    }
  }

  lemma InsertEnd<T(!new)>(cmp: (T, T) -> int, ok: T -> bool, s: seq<T>, j: nat, n: nat, usable: bool)
    requires InsertState(cmp, ok, s, j, n, usable) && (usable ==> Consistent(cmp, ok))
    requires j == 0 || cmp(s[j - 1], s[j]) <= 0
    ensures usable ==> AllOk(ok, s) && Sorted(cmp, s[..n])
  {
    if usable {
      EndInsert(cmp, ok, s, j, n);
    }
  }

  /** Exchanges the elements at `j - 1` and `j`. */
  method Swap<T>(a: array<T>, j: nat)
    requires 0 < j < a.Length
    modifies a
    ensures a[..] == Swapped(old(a[..]), j)
  {
    var x, y := a[j - 1], a[j];
    a[j - 1] := y;
    a[j] := x;
    assert a[..] == Swapped(old(a[..]), j);
  }

  /**
   * One pass of the insertion sort: moves `a[i]` down past every element
   * that should come after it, so that `a[..i + 1]` is in order when
   * `a[..i]` was.
   */
  method Insert<T(!new)>(a: array<T>, cmp: (T, T) -> int, ghost ok: T -> bool, i: nat, ghost usable: bool)
    requires i < a.Length
    requires usable ==> Consistent(cmp, ok) && AllOk(ok, a[..]) && Sorted(cmp, a[..i])
    modifies a
    ensures multiset(a[..]) == multiset(old(a[..]))
    ensures usable ==> AllOk(ok, a[..]) && Sorted(cmp, a[..i + 1])
  {
    InsertStart(cmp, ok, a[..], i, usable);
    var j := SinkFrom(a, cmp, ok, i, usable);
    InsertEnd(cmp, ok, a[..], j, i + 1, usable);
  }

  /** The swaps of one insertion: `a[i]` goes down while its left neighbour should come after it. */
  method SinkFrom<T(!new)>(a: array<T>, cmp: (T, T) -> int, ghost ok: T -> bool, i: nat, ghost usable: bool) returns (j: nat)
    requires InsertState(cmp, ok, a[..], i, i + 1, usable) && (usable ==> Consistent(cmp, ok))
    modifies a
    ensures multiset(a[..]) == multiset(old(a[..]))
    ensures InsertState(cmp, ok, a[..], j, i + 1, usable)
    ensures j == 0 || cmp(a[j - 1], a[j]) <= 0
  {
    ghost var s0 := a[..];
    j := i;
    while j > 0 && cmp(a[j - 1], a[j]) > 0
      invariant 0 <= j <= i
      invariant multiset(a[..]) == multiset(s0)
      invariant InsertState(cmp, ok, a[..], j, i + 1, usable)
    {
      ghost var s := a[..];
      InsertSwap(cmp, ok, s, j, i + 1, usable);
      Swap(a, j);
      SwappedPerm(s, j);
      j := j - 1;
    }
  }

  /**
   * `types.sort(cmp)`: an insertion sort by swaps, standing for the engine's
   * sort. The array keeps its elements, and ends up in order whenever the
   * comparator is consistent on them.
   */
  method SortBy<T(!new)>(a: array<T>, cmp: (T, T) -> int, ghost ok: T -> bool)
    modifies a
    ensures multiset(a[..]) == multiset(old(a[..]))
    ensures Consistent(cmp, ok) && AllOk(ok, old(a[..])) ==> Sorted(cmp, a[..])
  {
    ghost var usable := Consistent(cmp, ok) && AllOk(ok, a[..]);
    var i := 0;
    while i < a.Length
      invariant 0 <= i <= a.Length
      invariant multiset(a[..]) == multiset(old(a[..]))
      invariant usable ==> AllOk(ok, a[..]) && Sorted(cmp, a[..i])
    {
      Insert(a, cmp, ok, i, usable);
      i := i + 1;
    }
    assert a[..] == a[..a.Length];
  }

  /** `sortBySpecificity`: sorts in place and returns the same array. */
  method SortBySpecificity(types: array<MT>) returns (r: array<MT>)
    modifies types
    ensures r == types
    ensures multiset(types[..]) == multiset(old(types[..]))
    ensures Sorted(SpecificityCmp, types[..])
  {
    SpecificityConsistent();
    SortBy(types, SpecificityCmp, AnyType);
    return types;
  }

  /** `sortByQuality`: sorts in place and returns the same array, in order unless some `q` is `NaN`. */
  method SortByQuality(types: array<MT>) returns (r: array<MT>)
    modifies types
    ensures r == types
    ensures multiset(types[..]) == multiset(old(types[..]))
    ensures AllOk(NotNaN, old(types[..])) ==> Sorted(QualityCmp, types[..])
  {
    QualityConsistent();
    SortBy(types, QualityCmp, NotNaN);
    return types;
  }

  // ---------------------------------------------------------------------
  // mediaCmp
  // ---------------------------------------------------------------------

  /** Among `keys`, a parameter both sides set to non-empty values that differ. */
  ghost predicate ConflictAmong(ap: map<string, string>, bp: map<string, string>, keys: set<string>) {
    exists n :: n in keys && n in ap && n in bp && ap[n] != "" && bp[n] != "" && ap[n] != bp[n]
  }

  /** Among `keys`, a parameter `a` sets to a non-empty value that `b` does not have at all. */
  ghost predicate ExtraAmong(ap: map<string, string>, bp: map<string, string>, keys: set<string>) {
    exists n :: n in keys && n in ap && n !in bp && ap[n] != ""
  }

  /**
   * `mediaCmp(a, b)`: 1 when `a` is the wider type, -1 when `b` is, 0 when
   * they are the same and `None` when neither covers the other. Wildcards
   * decide first; a concrete type only meets itself, and then the one with
   * fewer parameters is the wider; with as many parameters on each side, a
   * clash of values makes them disjoint, and a value that only `a` sets
   * makes `a` the wider.
   */
  ghost function Compare(a: MT, b: MT): (r: Option<int>) {
    if a.fullType == "*/*" && b.fullType != "*/*" then Some(1)
    else if a.fullType != "*/*" && b.fullType == "*/*" then Some(-1)
    else if MainType(a.fullType) == "*" && MainType(b.fullType) != "*" then Some(1)
    else if MainType(a.fullType) != "*" && MainType(b.fullType) == "*" then Some(-1)
    else if a.fullType != b.fullType then None
    else if |a.params| < |b.params| then Some(1)
    else if |a.params| > |b.params| then Some(-1)
    else if ConflictAmong(a.params, b.params, a.params.Keys) then None
    else if ExtraAmong(a.params, b.params, a.params.Keys) then Some(1)
    else Some(0)
  }

  method MediaCmp(a: MT, b: MT) returns (r: Option<int>)
    ensures r == Compare(a, b)
  {
    if a.fullType == "*/*" && b.fullType != "*/*" {
      return Some(1);
    } else if a.fullType != "*/*" && b.fullType == "*/*" {
      return Some(-1);
    }
    var ac, bc := MainType(a.fullType), MainType(b.fullType);
    if ac == "*" && bc != "*" {
      return Some(1);
    }
    if ac != "*" && bc == "*" {
      return Some(-1);
    }
    if a.fullType != b.fullType {
      return None;
    }
    var ap, bp := a.params, b.params;
    if |ap| < |bp| {
      return Some(1);
    }
    if |ap| > |bp| {
      return Some(-1);
    }
    var dir := 0;
    var todo := ap.Keys;
    while todo != {}
      invariant todo <= ap.Keys
      invariant dir == 0 || dir == 1
      invariant !ConflictAmong(ap, bp, ap.Keys - todo)
      invariant dir == 1 <==> ExtraAmong(ap, bp, ap.Keys - todo)
      decreases todo
    {
      var n :| n in todo;
      if ap[n] != "" && n !in bp {
        dir := 1;
      }
      if ap[n] != "" && n in bp && bp[n] != "" && ap[n] != bp[n] {
        return None;
      }
      todo := todo - {n};
    }
    return Some(dir);
  }

  /** Every type is the same as itself. */
  lemma CompareSelf(a: MT)
    ensures Compare(a, a) == Some(0)
  {
  }

  // The any-type wildcard covers every type that is not itself the wildcard.
  lemma CompareAnyType(a: MT, b: MT)
    requires a.fullType == "*/*" && b.fullType != "*/*"
    ensures Compare(a, b) == Some(1) && Compare(b, a) == Some(-1)
  {
  }

  /**
   * Swapping the arguments reverses the answer whenever the types differ or
   * the parameter counts do.
   */
  lemma CompareAntisymmetric(a: MT, b: MT)
    requires a.fullType != b.fullType || |a.params| != |b.params|
    ensures Compare(b, a) == (match Compare(a, b) case None => None case Some(d) => Some(-d))
  {
  }

  /** A clash of values makes the two types disjoint whichever way they are compared. */
  lemma CompareConflictSymmetric(a: MT, b: MT)
    requires a.fullType == b.fullType && |a.params| == |b.params|
    requires ConflictAmong(a.params, b.params, a.params.Keys)
    ensures Compare(a, b) == None && Compare(b, a) == None
  {
    var n :| n in a.params.Keys && n in a.params && n in b.params && a.params[n] != ""
      && b.params[n] != "" && a.params[n] != b.params[n];
    assert n in b.params.Keys;
  }

  /**
   * With as many parameters on each side and no clash, two types that each
   * set a parameter the other lacks both claim to be the wider one.
   */
  lemma CompareCrossing(a: MT, b: MT)
    requires a.fullType == b.fullType && |a.params| == |b.params|
    requires !ConflictAmong(a.params, b.params, a.params.Keys)
    requires ExtraAmong(a.params, b.params, a.params.Keys)
    requires ExtraAmong(b.params, a.params, b.params.Keys)
    ensures Compare(a, b) == Some(1) && Compare(b, a) == Some(1)
  {
  }

  /** `text/html;a=1` and `text/html;b=1` each claim to cover the other. */
  lemma CrossingExample()
    ensures Compare(MT("text/html", map["a" := "1"], NoQ), MT("text/html", map["b" := "1"], NoQ)) == Some(1)
    ensures Compare(MT("text/html", map["b" := "1"], NoQ), MT("text/html", map["a" := "1"], NoQ)) == Some(1)
  {
    var a, b := MT("text/html", map["a" := "1"], NoQ), MT("text/html", map["b" := "1"], NoQ);
    assert "a" != "b";
    assert !ConflictAmong(a.params, b.params, a.params.Keys);
    assert !ConflictAmong(b.params, a.params, b.params.Keys);
    assert "a" in a.params.Keys;
    assert "b" in b.params.Keys;
    CompareCrossing(a, b);
  }

  /**
   * `mediaCmp` as its sorted union of keys suggests it was meant to run:
   * visiting the keys of both sides, so that a value only `b` sets makes `b`
   * the wider, and values only each side sets make the two disjoint.
   */
  ghost function CompareUnion(a: MT, b: MT): (r: Option<int>)
    ensures r.Some? ==> -1 <= r.value <= 1
  {
    if a.fullType == "*/*" && b.fullType != "*/*" then Some(1)
    else if a.fullType != "*/*" && b.fullType == "*/*" then Some(-1)
    else if MainType(a.fullType) == "*" && MainType(b.fullType) != "*" then Some(1)
    else if MainType(a.fullType) != "*" && MainType(b.fullType) == "*" then Some(-1)
    else if a.fullType != b.fullType then None
    else if |a.params| < |b.params| then Some(1)
    else if |a.params| > |b.params| then Some(-1)
    else if ConflictAmong(a.params, b.params, a.params.Keys) then None
    else if ExtraAmong(a.params, b.params, a.params.Keys) && ExtraAmong(b.params, a.params, b.params.Keys) then None
    else if ExtraAmong(a.params, b.params, a.params.Keys) then Some(1)
    else if ExtraAmong(b.params, a.params, b.params.Keys) then Some(-1)
    else Some(0)
  }

  /** A clash of values is a clash whichever side's keys are visited. */
  lemma ConflictSymmetric(ap: map<string, string>, bp: map<string, string>)
    ensures ConflictAmong(ap, bp, ap.Keys) <==> ConflictAmong(bp, ap, bp.Keys)
  {
    if ConflictAmong(ap, bp, ap.Keys) {
      var n :| n in ap.Keys && n in ap && n in bp && ap[n] != "" && bp[n] != "" && ap[n] != bp[n];
      assert n in bp.Keys;
    }
    if ConflictAmong(bp, ap, bp.Keys) {
      var n :| n in bp.Keys && n in bp && n in ap && bp[n] != "" && ap[n] != "" && bp[n] != ap[n];
      assert n in ap.Keys;
    }
  }

  /** Visiting both sides' keys, swapping the arguments always reverses the answer. */
  lemma CompareUnionAntisymmetric(a: MT, b: MT)
    ensures CompareUnion(b, a) == (match CompareUnion(a, b) case None => None case Some(d) => Some(-d))
  {
    ConflictSymmetric(a.params, b.params);
  }

  /** Visiting both sides' keys, crossing key sets make the two types disjoint. */
  lemma CompareUnionCrossing(a: MT, b: MT)
    requires a.fullType == b.fullType && |a.params| == |b.params|
    requires !ConflictAmong(a.params, b.params, a.params.Keys)
    requires ExtraAmong(a.params, b.params, a.params.Keys)
    requires ExtraAmong(b.params, a.params, b.params.Keys)
    ensures CompareUnion(a, b) == None && CompareUnion(b, a) == None
  {
    ConflictSymmetric(a.params, b.params);
  }

  // A subtype wildcard gets no special meaning: `text/*` does not cover `text/html`.
  lemma SubtypeWildcardExample()
    ensures Compare(MT("text/*", map[], NoQ), MT("text/html", map[], NoQ)) == None
  {
    assert "text/*"[4] == '/';
    assert "text/html"[4] == '/';
    assert MainType("text/*") == "text";
    assert MainType("text/html") == "text";
  }

  // ---------------------------------------------------------------------
  // firstMatch and select
  // ---------------------------------------------------------------------

  /** `mediaCmp(a, b) >= 0`: the accepted type `a` covers the available type `b`. */
  ghost predicate Covers(a: MT, b: MT) {
    var c := Compare(a, b);
    c.Some? && c.value >= 0
  }

  /** The first available type from position `from` on that `a` covers. */
  ghost function FirstCovered(available: seq<MT>, a: MT, from: nat): (r: Option<nat>)
    ensures r.Some? ==> from <= r.value < |available|
    decreases |available| - from
  {
    if from >= |available| then None
    else if Covers(a, available[from]) then Some(from)
    else FirstCovered(available, a, from + 1)
  }

  /**
   * The answer of `firstMatch`, taking the accepted types from position
   * `from` on: the first available type the earliest accepted type covers.
   */
  ghost function FirstMatch(available: seq<MT>, accepted: seq<MT>, from: nat): (r: Option<MT>)
    decreases |accepted| - from
  {
    if from >= |accepted| then None
    else match FirstCovered(available, accepted[from], from := 0)
      case Some(j) => Some(available[j])
      case None => FirstMatch(available, accepted, from + 1)
  }

  lemma {:induction false} FirstCoveredSpec(available: seq<MT>, a: MT, from: nat)
    ensures var r := FirstCovered(available, a, from);
      && (r.Some? ==> from <= r.value < |available| && Covers(a, available[r.value]))
      && (r.Some? ==> forall j :: from <= j < r.value ==> !Covers(a, available[j]))
      && (r.None? ==> forall j :: from <= j < |available| ==> !Covers(a, available[j]))
    decreases |available| - from
  {
    if from < |available| && !Covers(a, available[from]) {
      FirstCoveredSpec(available, a, from + 1);
    }
  }

  /** `accepted[i]` covers `available[j]`, and no earlier pair in `firstMatch`'s order does. */
  ghost predicate FirstPair(available: seq<MT>, accepted: seq<MT>, from: nat, i: nat, j: nat) {
    && from <= i < |accepted| && j < |available|
    && Covers(accepted[i], available[j])
    && (forall j' :: 0 <= j' < j ==> !Covers(accepted[i], available[j']))
    && (forall i', j' :: from <= i' < i && 0 <= j' < |available| ==> !Covers(accepted[i'], available[j']))
  }

  /**
   * `firstMatch` finds nothing exactly when no accepted type covers an
   * available one; otherwise it returns the available type of the first
   * covering pair, accepted types taken in order and available types in
   * order for each.
   */
  lemma {:induction false} FirstMatchSpec(available: seq<MT>, accepted: seq<MT>, from: nat)
    ensures FirstMatch(available, accepted, from).None? <==>
      forall i, j :: from <= i < |accepted| && 0 <= j < |available| ==> !Covers(accepted[i], available[j])
    ensures FirstMatch(available, accepted, from).Some? ==>
      exists i: nat, j: nat :: FirstPair(available, accepted, from, i, j) && FirstMatch(available, accepted, from) == Some(available[j])
    decreases |accepted| - from
  {
    if from < |accepted| {
      FirstCoveredSpec(available, accepted[from], 0);
      match FirstCovered(available, accepted[from], 0)
      case Some(j) =>
        assert FirstPair(available, accepted, from, from, j);
      case None =>
        FirstMatchSpec(available, accepted, from + 1);
        if FirstMatch(available, accepted, from).Some? {
          var i: nat, j: nat :| FirstPair(available, accepted, from + 1, i, j)
            && FirstMatch(available, accepted, from + 1) == Some(available[j]);
          assert FirstPair(available, accepted, from, i, j);
        }
    }
  }

  /** `firstMatch`: the two nested loops over the accepted, then the available types. */
  method FirstMatchOf(available: array<MT>, accepted: array<MT>) returns (r: Option<MT>)
    ensures r == FirstMatch(available[..], accepted[..], 0)
  {
    var i := 0;
    while i < accepted.Length
      invariant 0 <= i <= accepted.Length
      invariant FirstMatch(available[..], accepted[..], 0) == FirstMatch(available[..], accepted[..], i)
    {
      var j := 0;
      while j < available.Length
        invariant 0 <= j <= available.Length
        invariant FirstCovered(available[..], accepted[i], 0) == FirstCovered(available[..], accepted[i], j)
      {
        var comparison := MediaCmp(accepted[i], available[j]);
        if comparison.Some? && comparison.value >= 0 {
          return Some(available[j]);
        }
        j := j + 1;
      }
      i := i + 1;
    }
    return None;
  }

  /** Usability is a property of each element, so a permutation keeps it. */
  lemma OkPermutation<T>(ok: T -> bool, s: seq<T>, t: seq<T>)
    requires multiset(s) == multiset(t) && AllOk(ok, s)
    ensures AllOk(ok, t)
  {
    forall i | 0 <= i < |t| ensures ok(t[i]) {
      assert t[i] in multiset(t);
      var k :| 0 <= k < |s| && s[k] == t[i];
    }
  }

  /** `sortByQuality(sortBySpecificity(types))`, as `select` does it. */
  method SortForSelect(types: array<MT>)
    modifies types
    ensures multiset(types[..]) == multiset(old(types[..]))
    ensures AllOk(NotNaN, old(types[..])) ==> Sorted(QualityCmp, types[..])
  {
    ghost var before := types[..];
    var bySpecificity := SortBySpecificity(types);
    if AllOk(NotNaN, before) {
      OkPermutation(NotNaN, before, types[..]);
    }
    var byQuality := SortByQuality(bySpecificity);
  }

  /** The options object of `select`. */
  datatype SelectOptions = SelectOptions(sortAvailable: bool, sortAccepted: bool)

  /** The options `select` uses when it is given none. */
  const DefaultOptions := SelectOptions(false, true)

  /**
   * `select`: sorts the lists the options name by specificity and then by
   * quality, in place, and returns the first available type an accepted type
   * covers.
   */
  method Select(available: array<MT>, accepted: array<MT>, options: Option<SelectOptions>) returns (r: Option<MT>)
    modifies available, accepted
    ensures r == FirstMatch(available[..], accepted[..], 0)
    ensures multiset(available[..]) == multiset(old(available[..]))
    ensures multiset(accepted[..]) == multiset(old(accepted[..]))
    ensures var o := options.GetOr(DefaultOptions);
      && (!o.sortAvailable && available != accepted ==> available[..] == old(available[..]))
      && (!o.sortAccepted && available != accepted ==> accepted[..] == old(accepted[..]))
      && (o.sortAccepted && AllOk(NotNaN, old(accepted[..])) ==> Sorted(QualityCmp, accepted[..]))
      && (o.sortAvailable && available != accepted && AllOk(NotNaN, old(available[..])) ==>
            Sorted(QualityCmp, available[..]))
  {
    var o := options.GetOr(DefaultOptions);
    if o.sortAvailable {
      SortForSelect(available);
    }
    if o.sortAccepted {
      if AllOk(NotNaN, old(accepted[..])) {
        OkPermutation(NotNaN, old(accepted[..]), accepted[..]);
      }
      SortForSelect(accepted);
    }
    r := FirstMatchOf(available, accepted);
  }
}
