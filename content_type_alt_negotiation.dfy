/**
 * Negotiation in `contenttype.js`: `mediaCmp`, which decides whether an
 * accepted type covers an available one, and `select`, which walks every
 * pair of an available representation and an accepted type and keeps the
 * pair with the highest product of qualities.  Unlike the other variant,
 * this `mediaCmp` never compares parameter values, only whether each side
 * has a non-empty value, and this `select` does not sort either list.
 */
module ContentTypeAltNegotiation {
  import opened Wrappers
  import opened Header
  import opened ContentTypeAlt

  // ---------------------------------------------------------------------
  // mediaCmp
  // ---------------------------------------------------------------------

  /** Among `keys`, a parameter `a` has with a non-empty value while `b` lacks it or has it empty. */
  ghost predicate Wider(ap: map<string, string>, bp: map<string, string>, keys: set<string>) {
    exists n :: n in keys && n in ap && ap[n] != "" && (n !in bp || bp[n] == "")
  }

  /** Among `keys`, a parameter `a` has with an empty value while `b` has it non-empty. */
  ghost predicate Narrower(ap: map<string, string>, bp: map<string, string>, keys: set<string>) {
    exists n :: n in keys && n in ap && ap[n] == "" && n in bp && bp[n] != ""
  }

  /**
   * `mediaCmp(a, b)`: wildcards and types decide as in the other variant,
   * then the one with fewer parameters is the wider.  With as many
   * parameters on each side, only `a`'s keys are visited: a key where only
   * `a` has a value makes `a` the wider, a key where only `b` has one makes
   * `b` the wider, and both kinds together make them disjoint.  Values that
   * are both non-empty are never compared.
   */
  ghost function Compare(a: MT, b: MT): (r: Option<int>) {
    if a.fullType == "*/*" && b.fullType != "*/*" then Some(1)
    else if a.fullType != "*/*" && b.fullType == "*/*" then Some(-1)
    else if MainType(a.fullType) == "*" && MainType(b.fullType) != "*" then Some(1)
    else if MainType(a.fullType) != "*" && MainType(b.fullType) == "*" then Some(-1)
    else if a.fullType != b.fullType then None
    else if |a.params| < |b.params| then Some(1)
    else if |a.params| > |b.params| then Some(-1)
    else if Wider(a.params, b.params, a.params.Keys) && Narrower(a.params, b.params, a.params.Keys) then None
    else if Wider(a.params, b.params, a.params.Keys) then Some(1)
    else if Narrower(a.params, b.params, a.params.Keys) then Some(-1)
    else Some(0)
  }

  /** `mediaCmp(a, b)`, visiting `a`'s parameters in whatever order the object yields them. */
  method MediaCmp(a: MT, b: MT) returns (r: Option<int>)
    ensures r == Compare(a, b)
  {
    if a.fullType == "*/*" && b.fullType != "*/*" {
      return Some(1);
    } else if a.fullType != "*/*" && b.fullType == "*/*" {
      return Some(-1);
    }
    var ac, bc := MainType(a.fullType), MainType(b.fullType);
    if ac == "*" && bc != "*" {
      return Some(1);
    }
    if ac != "*" && bc == "*" {
      return Some(-1);
    }
    if a.fullType != b.fullType {
      return None;
    }
    var ap, bp := a.params, b.params;
    if |ap| < |bp| {
      return Some(1);
    }
    if |ap| > |bp| {
      return Some(-1);
    }
    var dir := 0;
    var todo := ap.Keys;
    while todo != {}
      invariant todo <= ap.Keys
      invariant -1 <= dir <= 1
      invariant dir == 1 <==> Wider(ap, bp, ap.Keys - todo)
      invariant dir == -1 <==> Narrower(ap, bp, ap.Keys - todo)
      decreases todo
    {
      var n :| n in todo;
      if ap[n] != "" && (n !in bp || bp[n] == "") {
        if dir < 0 {
          assert n in ap.Keys;
          return None;
        }
        dir := 1;
      }
      if ap[n] == "" && n in bp && bp[n] != "" {
        if dir > 0 {
          assert n in ap.Keys;
          return None;
        }
        dir := -1;
      }
      todo := todo - {n};
    }
    return Some(dir);
  }

  /** Every parameter value is non-empty. */
  ghost predicate Filled(p: map<string, string>) {
    forall n :: n in p ==> p[n] != ""
  }

  /** Every type is the same as itself. */
  lemma CompareSelf(a: MT)
    ensures Compare(a, a) == Some(0)
  {
  }

  /** The any-type wildcard covers every type that is not itself the wildcard. */
  lemma CompareAnyType(a: MT, b: MT)
    requires a.fullType == "*/*" && b.fullType != "*/*"
    ensures Compare(a, b) == Some(1) && Compare(b, a) == Some(-1)
  {
  }

  /**
   * Two types that set the same parameters to non-empty values are the same
   * type, whatever the values are.
   */
  lemma CompareIgnoresValues(a: MT, b: MT)
    requires a.fullType == b.fullType && a.params.Keys == b.params.Keys
    requires Filled(a.params) && Filled(b.params)
    ensures Compare(a, b) == Some(0) && Compare(b, a) == Some(0)
  {
    assert |a.params| == |a.params.Keys|;
    assert |b.params| == |b.params.Keys|;
  }

  /** With the same keys on each side, what is wider one way is narrower the other. */
  lemma WiderNarrower(ap: map<string, string>, bp: map<string, string>)
    requires ap.Keys == bp.Keys
    ensures Wider(ap, bp, ap.Keys) <==> Narrower(bp, ap, bp.Keys)
  {
    if Wider(ap, bp, ap.Keys) {
      var n :| n in ap.Keys && n in ap && ap[n] != "" && (n !in bp || bp[n] == "");
      assert n in bp.Keys;
    }
    if Narrower(bp, ap, bp.Keys) {
      var n :| n in bp.Keys && n in bp && bp[n] == "" && n in ap && ap[n] != "";
      assert n in ap.Keys;
    }
  }

  /**
   * Swapping the arguments reverses the answer whenever the types differ,
   * the parameter counts differ, or both sides have the same keys.
   */
  lemma CompareAntisymmetric(a: MT, b: MT)
    requires a.fullType != b.fullType || |a.params| != |b.params| || a.params.Keys == b.params.Keys
    ensures Compare(b, a) == (match Compare(a, b) case None => None case Some(d) => Some(-d))
  {
    if a.fullType == b.fullType && |a.params| == |b.params| {
      WiderNarrower(a.params, b.params);
      WiderNarrower(b.params, a.params);
    }
  }

  /**
   * With as many parameters on each side, all of them non-empty, two types
   * whose key sets cross each claim to be the wider one.
   */
  lemma CompareCrossing(a: MT, b: MT, x: string, y: string)
    requires a.fullType == b.fullType && |a.params| == |b.params|
    requires Filled(a.params) && Filled(b.params)
    requires x in a.params && x !in b.params
    requires y in b.params && y !in a.params
    ensures Compare(a, b) == Some(1) && Compare(b, a) == Some(1)
  {
    assert x in a.params.Keys;
    assert y in b.params.Keys;
  }

  /** `text/html;level=1` and `text/html;level=2` are the same type here, and disjoint in the other variant. */
  lemma ValuesExample()
    ensures Compare(MT("text/html", map["level" := "1"], NoQ), MT("text/html", map["level" := "2"], NoQ)) == Some(0)
  {
    var a, b := MT("text/html", map["level" := "1"], NoQ), MT("text/html", map["level" := "2"], NoQ);
    assert a.params.Keys == b.params.Keys == {"level"};
    CompareIgnoresValues(a, b);
  }

  /** An empty value counts as a missing one: `text/html;a=""` is narrower than `text/html;a=1`. */
  lemma EmptyValueExample()
    ensures Compare(MT("text/html", map["a" := ""], NoQ), MT("text/html", map["a" := "1"], NoQ)) == Some(-1)
  {
    var a, b := MT("text/html", map["a" := ""], NoQ), MT("text/html", map["a" := "1"], NoQ);
    assert "a" in a.params.Keys;
    assert !Wider(a.params, b.params, a.params.Keys);
  }

  // ---------------------------------------------------------------------
  // select
  // ---------------------------------------------------------------------

  /** The product `ca.q * cr.q`: a number, or `NaN` once either side is not a number. */
  datatype Score = Val(x: real) | NotANumber

  /** `select`'s running choice: `cr` (`None` while it is the `{q:0}` placeholder) and `cq`. */
  datatype Best = Best(cr: Option<MT>, cq: Score)

  /** Before any pair is taken. */
  const Start := Best(None, Val(0.0))

  /** `q || 1`: a quality of 0, `NaN` or none at all counts as 1. */
  function OrOne(q: Quality): (r: real)
    ensures r != 0.0
    ensures q.Num? && q.value != 0.0 ==> r == q.value
    ensures !q.Num? ==> r == 1.0
  {
    if q.Num? && q.value != 0.0 then q.value else 1.0
  }

  /** `ca.q * cr.q` on the raw qualities. */
  function Product(a: Quality, b: Quality): (r: Score)
    ensures r.Val? <==> a.Num? && b.Num?
  {
    if a.Num? && b.Num? then Val(a.value * b.value) else NotANumber
  }

  /** `mediaCmp(a, b) >= 0`. */
  ghost predicate Covers(a: MT, b: MT) {
    var c := Compare(a, b);
    c.Some? && c.value >= 0
  }

  /**
   * One pair: the representation `r` replaces the choice when `a` covers it
   * and `aq * rq` is strictly greater than `cq` (never, once `cq` is `NaN`).
   */
  ghost function Step(st: Best, r: MT, a: MT): (res: Best) {
    if Covers(a, r) && st.cq.Val? && OrOne(a.q) * OrOne(r.q) > st.cq.x then Best(Some(r), Product(a.q, r.q))
    else st
  }

  /** `cq === 1 && cr.type`: the early return. */
  predicate Stop(st: Best) {
    st.cq == Val(1.0) && st.cr.Some? && st.cr.value.fullType != ""
  }

  /** The inner loop over `accept` from `j` on, for the representation `r`. */
  ghost function ScanAccepts(r: MT, accept: seq<MT>, j: nat, st: Best): (res: Best)
    requires j <= |accept|
    decreases |accept| - j
  {
    if j == |accept| then st
    else
      var next := Step(st, r, accept[j]);
      if Stop(next) then next else ScanAccepts(r, accept, j + 1, next)
  }

  /** The outer loop over `reps` from `i` on. */
  ghost function ScanReps(reps: seq<MT>, accept: seq<MT>, i: nat, st: Best): (r: Best)
    requires i <= |reps|
    decreases |reps| - i
  {
    if i == |reps| then st
    else
      var next := ScanAccepts(reps[i], accept, 0, st);
      if Stop(next) then next else ScanReps(reps, accept, i + 1, next)
  }

  /** `cr.type && cr`: the choice, unless it is the placeholder or has an empty type. */
  function Answer(st: Best): (r: Option<MT>)
    ensures r.Some? ==> st.cr == r && r.value.fullType != ""
    ensures r.None? ==> st.cr.None? || st.cr.value.fullType == ""
  {
    if st.cr.Some? && st.cr.value.fullType != "" then st.cr else None
  }

  /** `select(reps, accept)`. */
  method Select(reps: seq<MT>, accept: seq<MT>) returns (r: Option<MT>)
    ensures r == Answer(ScanReps(reps, accept, 0, Start))
  {
    var cr: Option<MT> := None;
    var cq: Score := Val(0.0);
    var i := 0;
    while i < |reps|
      invariant i <= |reps|
      invariant !Stop(Best(cr, cq))
      invariant ScanReps(reps, accept, i, Best(cr, cq)) == ScanReps(reps, accept, 0, Start)
    {
      var rep := reps[i];
      var rq := OrOne(rep.q);
      ghost var entry := Best(cr, cq);
      var j := 0;
      while j < |accept|
        invariant j <= |accept|
        invariant !Stop(Best(cr, cq))
        invariant ScanAccepts(rep, accept, j, Best(cr, cq)) == ScanAccepts(rep, accept, 0, entry)
      {
        var a := accept[j];
        var aq := OrOne(a.q);
        var cmp := MediaCmp(a, rep);
        ghost var next := Step(Best(cr, cq), rep, a);
        StepOutcome(Best(cr, cq), rep, a, cmp, aq, rq);
        ScanAcceptsStep(rep, accept, j, Best(cr, cq));
        if cmp.Some? && cmp.value >= 0 {
          if cq.Val? && aq * rq > cq.x {
            cr, cq := Some(rep), Product(a.q, rep.q);
            if cq == Val(1.0) && rep.fullType != "" {
              ScanRepsStop(reps, accept, i, entry);
              return cr;
            }
          }
        }
        assert Best(cr, cq) == next;
        j := j + 1;
      }
      i := i + 1;
    }
    if cr.Some? && cr.value.fullType != "" {
      return cr;
    }
    return None;
  }

  /** What one pair does, with `mediaCmp` already computed. */
  lemma StepOutcome(st: Best, r: MT, a: MT, cmp: Option<int>, aq: real, rq: real)
    requires cmp == Compare(a, r) && aq == OrOne(a.q) && rq == OrOne(r.q)
    ensures Step(st, r, a) ==
      if cmp.Some? && cmp.value >= 0 && st.cq.Val? && aq * rq > st.cq.x
      then Best(Some(r), Product(a.q, r.q)) else st
  {
  }

  /** The inner loop, one pair further on. */
  lemma ScanAcceptsStep(r: MT, accept: seq<MT>, j: nat, st: Best)
    requires j < |accept|
    ensures var next := Step(st, r, accept[j]);
      ScanAccepts(r, accept, j, st) == if Stop(next) then next else ScanAccepts(r, accept, j + 1, next)
  {
  }

  /** An inner loop that ends in the early return ends the outer one too. */
  lemma ScanRepsStop(reps: seq<MT>, accept: seq<MT>, i: nat, st: Best)
    requires i < |reps| && Stop(ScanAccepts(reps[i], accept, 0, st))
    ensures ScanReps(reps, accept, i, st) == ScanAccepts(reps[i], accept, 0, st)
  {
  }

  /** An inner loop that runs to its end hands its state to the next row. */
  lemma ScanRepsNext(reps: seq<MT>, accept: seq<MT>, i: nat, st: Best)
    requires i < |reps| && !Stop(ScanAccepts(reps[i], accept, 0, st))
    ensures ScanReps(reps, accept, i, st) == ScanReps(reps, accept, i + 1, ScanAccepts(reps[i], accept, 0, st))
  {
  }

  // ---------------------------------------------------------------------
  // What select chooses
  // ---------------------------------------------------------------------

  /** A row of pairs that `accept` never covers leaves the choice alone. */
  lemma {:induction false} ScanAcceptsUncovered(r: MT, accept: seq<MT>, j: nat, st: Best)
    requires j <= |accept| && !Stop(st)
    requires forall k :: j <= k < |accept| ==> !Covers(accept[k], r)
    ensures ScanAccepts(r, accept, j, st) == st
    decreases |accept| - j
  {
    if j < |accept| {
      ScanAcceptsUncovered(r, accept, j + 1, st);
    }
  }

  /** Rows that are never covered leave the choice alone. */
  lemma {:induction false} ScanRepsUncovered(reps: seq<MT>, accept: seq<MT>, i: nat, st: Best)
    requires i <= |reps| && !Stop(st)
    requires forall k, l :: i <= k < |reps| && 0 <= l < |accept| ==> !Covers(accept[l], reps[k])
    ensures ScanReps(reps, accept, i, st) == st
    decreases |reps| - i
  {
    if i < |reps| {
      ScanAcceptsUncovered(reps[i], accept, 0, st);
      ScanRepsUncovered(reps, accept, i + 1, st);
    }
  }

  /** No accepted type covers any representation: nothing is selected. */
  lemma SelectUncovered(reps: seq<MT>, accept: seq<MT>)
    requires forall k, l :: 0 <= k < |reps| && 0 <= l < |accept| ==> !Covers(accept[l], reps[k])
    ensures Answer(ScanReps(reps, accept, 0, Start)) == None
  {
    ScanRepsUncovered(reps, accept, 0, Start);
  }

  /** The choice, when there is one, is a representation some accepted type covers. */
  ghost predicate Elected(reps: seq<MT>, accept: seq<MT>, st: Best) {
    st.cr.Some? ==> st.cr.value in reps && exists a :: a in accept && Covers(a, st.cr.value)
  }

  lemma {:induction false} ScanAcceptsElected(reps: seq<MT>, r: MT, accept: seq<MT>, j: nat, st: Best)
    requires j <= |accept| && r in reps
    requires Elected(reps, accept, st)
    ensures Elected(reps, accept, ScanAccepts(r, accept, j, st))
    decreases |accept| - j
  {
    if j < |accept| {
      var next := Step(st, r, accept[j]);
      assert accept[j] in accept;
      assert Elected(reps, accept, next);
      ScanAcceptsElected(reps, r, accept, j + 1, next);
    }
  }

  lemma {:induction false} ScanRepsElected(reps: seq<MT>, accept: seq<MT>, i: nat, st: Best)
    requires i <= |reps|
    requires Elected(reps, accept, st)
    ensures Elected(reps, accept, ScanReps(reps, accept, i, st))
    decreases |reps| - i
  {
    if i < |reps| {
      ScanAcceptsElected(reps, reps[i], accept, 0, st);
      ScanRepsElected(reps, accept, i + 1, ScanAccepts(reps[i], accept, 0, st));
    }
  }

  /** What `select` returns is one of the representations, has a type, and is covered by an accepted type. */
  lemma SelectElected(reps: seq<MT>, accept: seq<MT>)
    ensures var r := Answer(ScanReps(reps, accept, 0, Start));
      r.Some? ==> r.value in reps && r.value.fullType != "" && exists a :: a in accept && Covers(a, r.value)
  {
    ScanRepsElected(reps, accept, 0, Start);
  }

  /** Once `cq` is `NaN`, no later pair can win: `x > NaN` is false. */
  lemma {:induction false} ScanAcceptsFrozen(r: MT, accept: seq<MT>, j: nat, st: Best)
    requires j <= |accept| && st.cq.NotANumber?
    ensures ScanAccepts(r, accept, j, st) == st
    decreases |accept| - j
  {
    if j < |accept| {
      ScanAcceptsFrozen(r, accept, j + 1, st);
    }
  }

  /** A choice whose `cq` is `NaN` is final, whatever follows. */
  lemma {:induction false} SelectFrozen(reps: seq<MT>, accept: seq<MT>, i: nat, st: Best)
    requires i <= |reps| && st.cq.NotANumber?
    ensures ScanReps(reps, accept, i, st) == st
    decreases |reps| - i
  {
    if i < |reps| {
      ScanAcceptsFrozen(reps[i], accept, 0, st);
      SelectFrozen(reps, accept, i + 1, st);
    }
  }

  // A representation copied from a media type without `q` has `q`
  // undefined; picked first under `*/*`, it makes `cq` `NaN` and keeps the
  // choice although the next representation scores as high.
  lemma FrozenExample()
    ensures var html, json := MT("text/html", map[], Undefined), MT("application/json", map[], Num(1.0));
      Answer(ScanReps([html, json], [MT("*/*", map[], Num(1.0))], 0, Start)) == Some(html)
  {
    var html, json := MT("text/html", map[], Undefined), MT("application/json", map[], Num(1.0));
    var any := MT("*/*", map[], Num(1.0));
    CompareAnyType(any, html);
    var st := Best(Some(html), NotANumber);
    assert Step(Start, html, any) == st;
    ScanAcceptsStep(html, [any], 0, Start);
    assert ScanAccepts(html, [any], 0, Start) == st;
    SelectFrozen([html, json], [any], 1, st);
  }

  // `*/*;q=0` still selects: `q || 1` reads a quality of 0 as 1.
  lemma ZeroQualityExample()
    ensures var html := MT("text/html", map[], Num(1.0));
      Answer(ScanReps([html], [MT("*/*", map[], Num(0.0))], 0, Start)) == Some(html)
  {
    var html, any := MT("text/html", map[], Num(1.0)), MT("*/*", map[], Num(0.0));
    CompareAnyType(any, html);
    assert ScanAccepts(html, [any], 0, Start) == Best(Some(html), Val(0.0));
  }

  // With every quality a number in (0, 1], `select` takes the first pair of
  // highest score in the order it visits them.

  /** Every `q` is a number in (0, 1]. */
  ghost predicate UnitQ(ms: seq<MT>) {
    forall k :: 0 <= k < |ms| ==> ms[k].q.Num? && 0.0 < ms[k].q.value <= 1.0
  }

  /** `aq * rq` for the representation `reps[i]` and the accepted type `accept[j]`. */
  function PairScore(reps: seq<MT>, accept: seq<MT>, i: nat, j: nat): (r: real)
    requires i < |reps| && j < |accept|
  {
    OrOne(accept[j].q) * OrOne(reps[i].q)
  }

  /** The pair (`i'`, `j'`) is visited before the pair (`i`, `j`). */
  predicate Before(i': nat, j': nat, i: nat, j: nat) {
    i' < i || (i' == i && j' < j)
  }

  /** No pair visited before (`i`, `j`) is covered. */
  ghost predicate NoneBefore(reps: seq<MT>, accept: seq<MT>, i: nat, j: nat) {
    forall k: nat, l: nat :: k < |reps| && l < |accept| && Before(k, l, i, j) ==> !Covers(accept[l], reps[k])
  }

  /**
   * Among the pairs visited before (`i`, `j`), (`i0`, `j0`) is covered, no
   * covered pair scores higher, and every covered pair visited before it
   * scores lower.
   */
  ghost predicate BestBefore(reps: seq<MT>, accept: seq<MT>, i: nat, j: nat, i0: nat, j0: nat) {
    && i0 < |reps| && j0 < |accept| && Before(i0, j0, i, j) && Covers(accept[j0], reps[i0])
    && (forall k: nat, l: nat :: k < |reps| && l < |accept| && Before(k, l, i, j) && Covers(accept[l], reps[k]) ==>
          PairScore(reps, accept, k, l) <= PairScore(reps, accept, i0, j0))
    && (forall k: nat, l: nat :: k < |reps| && l < |accept| && Before(k, l, i0, j0) && Covers(accept[l], reps[k]) ==>
          PairScore(reps, accept, k, l) < PairScore(reps, accept, i0, j0))
  }

  /** The state that records the pair (`i0`, `j0`). */
  ghost predicate Holds(reps: seq<MT>, accept: seq<MT>, st: Best, i0: nat, j0: nat)
    requires i0 < |reps| && j0 < |accept|
  {
    st == Best(Some(reps[i0]), Val(PairScore(reps, accept, i0, j0)))
  }

  /** Scores lie in (0, 1] and are what `ca.q * cr.q` computes. */
  lemma UnitScore(reps: seq<MT>, accept: seq<MT>, i: nat, j: nat)
    requires UnitQ(reps) && UnitQ(accept) && i < |reps| && j < |accept|
    ensures 0.0 < PairScore(reps, accept, i, j) <= 1.0
    ensures Product(accept[j].q, reps[i].q) == Val(PairScore(reps, accept, i, j))
  {
    var x, y := accept[j].q.value, reps[i].q.value;
    assert 0.0 < x <= 1.0 && 0.0 < y <= 1.0;
    assert x * y <= 1.0 * y;
  }

  /** A covered pair that beats the choice becomes the choice. */
  lemma StepTaken(reps: seq<MT>, accept: seq<MT>, i: nat, j: nat, st: Best, has: bool, i0: nat, j0: nat)
    requires UnitQ(reps) && UnitQ(accept) && i < |reps| && j < |accept|
    requires has ==> BestBefore(reps, accept, i, j, i0, j0) && Holds(reps, accept, st, i0, j0)
    requires !has ==> NoneBefore(reps, accept, i, j) && st == Start
    requires Step(st, reps[i], accept[j]) != st
    ensures BestBefore(reps, accept, i, j + 1, i, j) && Holds(reps, accept, Step(st, reps[i], accept[j]), i, j)
  {
    UnitScore(reps, accept, i, j);
  }

  /** A pair that does not beat the choice leaves it, and it still dominates. */
  lemma StepSkipped(reps: seq<MT>, accept: seq<MT>, i: nat, j: nat, st: Best, has: bool, i0: nat, j0: nat)
    requires UnitQ(reps) && UnitQ(accept) && i < |reps| && j < |accept|
    requires has ==> BestBefore(reps, accept, i, j, i0, j0) && Holds(reps, accept, st, i0, j0)
    requires !has ==> NoneBefore(reps, accept, i, j) && st == Start
    requires Step(st, reps[i], accept[j]) == st
    ensures has ==> BestBefore(reps, accept, i, j + 1, i0, j0)
    ensures !has ==> NoneBefore(reps, accept, i, j + 1)
  {
    UnitScore(reps, accept, i, j);
  }

  /** A choice that scores 1 dominates every pair, visited or not. */
  lemma StopBest(reps: seq<MT>, accept: seq<MT>, i: nat, j: nat, i0: nat, j0: nat)
    requires UnitQ(reps) && UnitQ(accept)
    requires BestBefore(reps, accept, i, j, i0, j0) && PairScore(reps, accept, i0, j0) == 1.0
    ensures BestBefore(reps, accept, |reps|, 0, i0, j0)
  {
    forall k: nat, l: nat | k < |reps| && l < |accept| && Covers(accept[l], reps[k])
      ensures PairScore(reps, accept, k, l) <= PairScore(reps, accept, i0, j0)
    {
      UnitScore(reps, accept, k, l);
    }
  }

  /** The end of a row is the start of the next. */
  lemma RowEnd(reps: seq<MT>, accept: seq<MT>, i: nat, has: bool, i0: nat, j0: nat)
    requires has ==> BestBefore(reps, accept, i, |accept|, i0, j0)
    requires !has ==> NoneBefore(reps, accept, i, |accept|)
    ensures has ==> BestBefore(reps, accept, i + 1, 0, i0, j0)
    ensures !has ==> NoneBefore(reps, accept, i + 1, 0)
  {
  }

  /**
   * The state `st` after the pairs visited before (`i`, `j`): when `has`, it
   * records the best pair (`i0`, `j0`) so far, and otherwise no pair so far
   * is covered and `st` is the placeholder.
   */
  ghost predicate Visited(reps: seq<MT>, accept: seq<MT>, i: nat, j: nat, st: Best, has: bool, i0: nat, j0: nat) {
    && (has ==> BestBefore(reps, accept, i, j, i0, j0) && Holds(reps, accept, st, i0, j0))
    && (!has ==> NoneBefore(reps, accept, i, j) && st == Start)
  }

  lemma {:induction false} ScanAcceptsBest(reps: seq<MT>, accept: seq<MT>, i: nat, j: nat, st: Best,
                                           has: bool, i0: nat, j0: nat)
    returns (found: bool, i1: nat, j1: nat)
    requires UnitQ(reps) && UnitQ(accept)
    requires i < |reps| && j <= |accept| && !Stop(st)
    requires Visited(reps, accept, i, j, st, has, i0, j0)
    ensures var fin := ScanAccepts(reps[i], accept, j, st);
      Visited(reps, accept, if Stop(fin) then |reps| else i + 1, 0, fin, found, i1, j1)
    decreases |accept| - j
  {
    if j == |accept| {
      RowEnd(reps, accept, i, has, i0, j0);
      return has, i0, j0;
    }
    var next := Step(st, reps[i], accept[j]);
    ScanAcceptsStep(reps[i], accept, j, st);
    if next != st {
      StepTaken(reps, accept, i, j, st, has, i0, j0);
      if Stop(next) {
        StopBest(reps, accept, i, j + 1, i, j);
        return true, i, j;
      }
      found, i1, j1 := ScanAcceptsBest(reps, accept, i, j + 1, next, true, i, j);
    } else {
      StepSkipped(reps, accept, i, j, st, has, i0, j0);
      found, i1, j1 := ScanAcceptsBest(reps, accept, i, j + 1, next, has, i0, j0);
    }
  }

  lemma {:induction false} ScanRepsBest(reps: seq<MT>, accept: seq<MT>, i: nat, st: Best,
                                        has: bool, i0: nat, j0: nat)
    returns (found: bool, i1: nat, j1: nat)
    requires UnitQ(reps) && UnitQ(accept)
    requires i <= |reps| && !Stop(st)
    requires Visited(reps, accept, i, 0, st, has, i0, j0)
    ensures Visited(reps, accept, |reps|, 0, ScanReps(reps, accept, i, st), found, i1, j1)
    decreases |reps| - i
  {
    if i == |reps| {
      return has, i0, j0;
    }
    var next := ScanAccepts(reps[i], accept, 0, st);
    var has', i0', j0' := ScanAcceptsBest(reps, accept, i, 0, st, has, i0, j0);
    if Stop(next) {
      ScanRepsStop(reps, accept, i, st);
      return has', i0', j0';
    }
    ScanRepsNext(reps, accept, i, st);
    found, i1, j1 := ScanRepsBest(reps, accept, i + 1, next, has', i0', j0');
  }

  /**
   * With every quality in (0, 1], `select` settles on a representation
   * exactly when some pair is covered, and then on the representation of
   * the first covered pair whose score no covered pair exceeds.
   */
  lemma SelectChoosesBest(reps: seq<MT>, accept: seq<MT>)
    requires UnitQ(reps) && UnitQ(accept)
    ensures var fin := ScanReps(reps, accept, 0, Start);
      && (fin.cr.None? <==> NoneBefore(reps, accept, |reps|, 0))
      && (fin.cr.Some? ==> exists i: nat, j: nat :: BestBefore(reps, accept, |reps|, 0, i, j) && fin.cr == Some(reps[i]))
      && ((forall k :: 0 <= k < |reps| ==> reps[k].fullType != "") ==>
            (Answer(fin).None? <==> NoneBefore(reps, accept, |reps|, 0)))
  {
    var found, i, j := ScanRepsBest(reps, accept, 0, Start, false, 0, 0);
    if found {
      assert !NoneBefore(reps, accept, |reps|, 0) by {
        assert Before(i, j, |reps|, 0);
      }
    }
  }
}
