/**
 * `contenttype.js`, the other variant of the library: the same `MediaType`
 * object, but with `parseQ` rounding the quality when it is read, a
 * parameter parser that stops taking parameters once the object has its own
 * `q` property, and a `toString` that writes `;name=value` and `; q=`.
 */
module ContentTypeAlt {
  import opened Wrappers
  import opened Text
  import opened Decimal
  import opened Splitter
  import opened Header
  import opened Seqs
  import CT = ContentType

  /**
   * The `q` property: not an own property, an own property holding
   * `undefined` (what copying a media type without `q` leaves), a number, or
   * `NaN`.
   */
  datatype Quality = NoQ | Undefined | Num(value: real) | NaN

  /** A media type as a value: `type` (here `fullType`), `params` and `q`. */
  datatype MT = MT(fullType: string, params: map<string, string>, q: Quality)

  /** The first constructor argument: a string, another media type, or anything else. */
  datatype Origin = Blank | FromString(s: string) | FromMedia(m: MT)

  /** The second constructor argument: a string of parameters, an object, or anything else. */
  datatype Overrides = NoOverrides | ParamString(s: string) | ParamObject(p: map<string, string>)

  /** A media type with nothing set, as the constructor starts out. */
  const Empty := MT("", map[], NoQ)

  /** `parseQ(v)`: `parseFloat(Math.min(parseFloat(v), 1).toFixed(3))`. */
  function ParseQ(v: string): (r: Quality)
    ensures r.Num? || r.NaN?
  {
    match ParseFloat(v)
    case Some(x) => Num(RoundTo3(if x < 1.0 then x else 1.0))
    case None => NaN
  }

  /** What a trimmed name and value do: `q` is always taken, any other name only while there is no own `q`. */
  function Assign(m: MT, name: string, value: string): (r: MT)
    ensures r.fullType == m.fullType
  {
    if value == [] || name == [] then m
    else if name == "q" then m.(q := ParseQ(value))
    else if m.q.NoQ? then m.(params := m.params[name := Unquote(value)])
    else m
  }

  /** `parseParameter(s)` on the media type `m`. */
  function ParseParam(m: MT, s: string): (r: MT)
    ensures r.fullType == m.fullType
  {
    Assign(m, Trim(CT.NamePart(s)), Trim(CT.ValuePart(s)))
  }

  /** `parseParameter` applied to each field in turn. */
  function ApplyFields(m: MT, fields: seq<string>): (r: MT)
    ensures r.fullType == m.fullType
    decreases |fields|
  {
    if fields == [] then m
    else ParseParam(ApplyFields(m, fields[..|fields| - 1]), fields[|fields| - 1])
  }

  /** The media type after the first constructor argument; a copy always has `q` as an own property. */
  function Base(o: Origin): (r: MT) {
    match o
    case Blank => Empty
    case FromString(s) =>
      var c := Split(s, ';', '"');
      ApplyFields(MT(c[0], map[], NoQ), c[1..])
    case FromMedia(m) => MT(m.fullType, m.params, if m.q.NoQ? then Undefined else m.q)
  }

  /** The entries of an override object other than `q`, each through `parseParamValue`. */
  function ObjectParams(obj: map<string, string>): (r: map<string, string>) {
    ObjectParamsOf(obj, obj.Keys)
  }

  /** The same, for the keys in `keys` only. */
  function ObjectParamsOf(obj: map<string, string>, keys: set<string>): (r: map<string, string>) {
    map k | k in keys && k in obj && k != "q" :: Unquote(obj[k])
  }

  /** `new MediaType(o, p)`. */
  function Construct(o: Origin, p: Overrides): (r: MT) {
    var base := Base(o);
    match p
    case NoOverrides => base
    case ParamString(t) => ApplyFields(base, Split(t, ';', '"'))
    case ParamObject(obj) =>
      base.(params := base.params + ObjectParams(obj), q := if "q" in obj then ParseQ(obj["q"]) else base.q)
  }

  /** `parseMedia(s)`: a media type read from a string, with `q` set to 1 when it was left undefined. */
  function MediaOf(s: string): (r: MT) {
    var m := Construct(FromString(s), NoOverrides);
    if m.q.NoQ? || m.q.Undefined? then m.(q := Num(1.0)) else m
  }

  /** The `; q=` suffix, written for a number that is not negative. */
  function QText(q: Quality): (r: string) {
    if q.Num? && q.value >= 0.0 then "; q=" + FormatQ(q.value) else []
  }

  /** `toString()`: the type, `;name=value` for each key in order, then the quality. */
  function Serialize(m: MT): (r: string) {
    m.fullType + Prefixed(ParamFields(m.params, SortedKeys(m.params.Keys)), ';') + QText(m.q)
  }

  /** The `MediaType` object of this variant. */
  class MediaType {
    /** The `type` property. */
    var fullType: string
    var params: map<string, string>
    var q: Quality

    function Value(): (r: MT)
      reads this
    {
      MT(fullType, params, q)
    }

    constructor (o: Origin, p: Overrides)
      ensures Value() == Construct(o, p)
    {
      fullType := "";
      params := map[];
      q := NoQ;
      new;
      match o {
        case FromString(s) =>
          var c := SplitQuotedString(s, ';', '"');
          fullType := c[0];
          ParseAll(c[1..]);
        case FromMedia(m) =>
          fullType := m.fullType;
          q := if m.q.NoQ? then Undefined else m.q;
          CopyParams(m.params);
        case Blank =>
      }
      assert Value() == Base(o);
      ghost var base := Value();
      match p {
        case ParamString(t) =>
          var c := SplitQuotedString(t, ';', '"');
          ParseAll(c);
        case ParamObject(obj) =>
          AssignObject(obj);
        case NoOverrides =>
      }
      assert Value() == Construct(o, p) by {
        assert Base(o) == base;
      }
    }

    /** The loop that hands each field to `parseParameter`. */
    method ParseAll(fields: seq<string>)
      modifies this
      ensures Value() == ApplyFields(old(Value()), fields)
    {
      var i := 0;
      while i < |fields|
        invariant 0 <= i <= |fields|
        invariant Value() == ApplyFields(old(Value()), fields[..i])
      {
        assert fields[..i + 1][..i] == fields[..i];
        ParseParameter(fields[i]);
        i := i + 1;
      }
      assert fields[..i] == fields;
    }

    /** `for (var i in type.params) this.params[i] = type.params[i]`. */
    method CopyParams(from: map<string, string>)
      modifies this
      ensures Value() == old(Value()).(params := old(params) + from)
    {
      var todo := from.Keys;
      ghost var done: set<string> := {};
      while todo != {}
        invariant todo + done == from.Keys && todo !! done
        invariant fullType == old(fullType) && q == old(q)
        invariant params == old(params) + map n | n in done :: from[n]
        decreases todo
      {
        var n :| n in todo;
        params := params[n := from[n]];
        todo := todo - {n};
        done := done + {n};
      }
      assert (map n | n in done :: from[n]) == from;
    }

    /** The `for (var i in params)` loop for an object second argument: `q` through `parseQ`, the rest through `parseParamValue`. */
    method AssignObject(obj: map<string, string>)
      modifies this
      ensures Value() == old(Value()).(params := old(params) + ObjectParams(obj),
                                       q := if "q" in obj then ParseQ(obj["q"]) else old(q))
    {
      var todo := obj.Keys;
      ghost var done: set<string> := {};
      while todo != {}
        invariant todo + done == obj.Keys && todo !! done
        invariant fullType == old(fullType)
        invariant q == if "q" in done then ParseQ(obj["q"]) else old(q)
        invariant params == old(params) + ObjectParamsOf(obj, done)
        decreases todo
      {
        var n :| n in todo;
        ObjectParamsAdd(obj, done, n);
        if n == "q" {
          q := ParseQ(obj[n]);
        } else {
          UnionUpdate(old(params), ObjectParamsOf(obj, done), n, Unquote(obj[n]));
          params := params[n := Unquote(obj[n])];
        }
        todo := todo - {n};
        done := done + {n};
      }
    }

    /** `parseParameter(s)`. */
    method ParseParameter(s: string)
      modifies this
      ensures Value() == ParseParam(old(Value()), s)
    {
      var name, value := CT.NameAndValue(s);
      ghost var m := Value();
      assert ParseParam(m, s) == Assign(m, name, value);
      if value == [] || name == [] {
        return;
      }
      if name == "q" {
        q := ParseQ(value);
      } else {
        var v := Unquote(value);
        if q.NoQ? {
          params := params[name := v];
        }
      }
      assert Value() == Assign(m, name, value);
    }

    /** `toString()`. */
    method ToString() returns (str: string)
      ensures str == Serialize(Value())
    {
      str := AppendFields(fullType, params, SortedKeys(params.Keys));
      if q.Num? && q.value >= 0.0 {
        var digits := FormatQ(q.value);
        assert QText(q) == "; q=" + digits;
        str := str + ("; q=" + digits);
      }
    }
  }

  /** One more entry of the override object, seen by the loop. */
  lemma ObjectParamsAdd(obj: map<string, string>, done: set<string>, n: string)
    requires n in obj
    ensures ObjectParamsOf(obj, done + {n})
        == if n == "q" then ObjectParamsOf(obj, done) else ObjectParamsOf(obj, done)[n := Unquote(obj[n])]
  {
    var before := ObjectParamsOf(obj, done);
    var after := ObjectParamsOf(obj, done + {n});
    if n == "q" {
      assert after.Keys == before.Keys;
    } else {
      assert after.Keys == before.Keys + {n};
    }
  }

  lemma UnionUpdate(a: map<string, string>, b: map<string, string>, n: string, v: string)
    ensures (a + b)[n := v] == a + b[n := v]
  {
  }

  /** The loop of `toString()` over the sorted keys, appending `;name=value` for each. */
  method AppendFields(str0: string, params: map<string, string>, keys: seq<string>) returns (str: string)
    requires forall k :: k in keys ==> k in params
    ensures str == str0 + Prefixed(ParamFields(params, keys), ';')
  {
    str := str0;
    var i := 0;
    while i < |keys|
      invariant 0 <= i <= |keys|
      invariant str == str0 + Prefixed(ParamFields(params, keys[..i]), ';')
    {
      var field := ParamField(keys[i], params[keys[i]]);
      FieldsStep(params, keys, i);
      AppendField(str0, ParamFields(params, keys[..i]), field);
      str := str + ([';'] + field);
      i := i + 1;
    }
    WholePrefix(keys, i);
  }

  /** Appending `;field` to the text of some fields gives the text of one more field. */
  lemma AppendField(str0: string, pre: seq<string>, field: string)
    ensures str0 + Prefixed(pre, ';') + ([';'] + field) == str0 + Prefixed(pre + [field], ';')
  {
    PrefixedSnoc(pre, field, ';');
    AppendAssoc(Prefixed(pre, ';'), [';'], field);
    AppendAssoc(str0, Prefixed(pre, ';'), [';'] + field);
  }

  lemma FieldsStep(params: map<string, string>, keys: seq<string>, i: nat)
    requires forall k :: k in keys ==> k in params
    requires i < |keys|
    ensures ParamFields(params, keys[..i + 1]) == ParamFields(params, keys[..i]) + [ParamField(keys[i], params[keys[i]])]
  {
    assert keys[..i + 1] == keys[..i] + [keys[i]];
    ParamFieldsSnoc(params, keys[..i], keys[i]);
  }

  /** `parseMedia(str)`. */
  method ParseMedia(s: string) returns (m: MediaType)
    ensures fresh(m)
    ensures m.Value() == MediaOf(s)
  {
    m := new MediaType(FromString(s), NoOverrides);
    if m.q.NoQ? || m.q.Undefined? {
      m.q := Num(1.0);
    }
  }

  // ---------------------------------------------------------------------
  // Properties
  // ---------------------------------------------------------------------

  /**
   * `parseQ` gives `NaN` exactly when `parseFloat` finds no number, and
   * otherwise a whole number of thousandths no greater than 1, within half a
   * thousandth of the number capped at 1; a negative number stays negative
   * unless it rounds to 0.
   */
  lemma ParseQRange(v: string)
    ensures ParseQ(v).NaN? <==> ParseFloat(v).None?
    ensures ParseFloat(v).Some? ==>
      var x := ParseFloat(v).value;
      var c := if x < 1.0 then x else 1.0;
      && ParseQ(v).Num?
      && ParseQ(v).value <= 1.0
      && IsThousandths(ParseQ(v).value)
      && -0.0005 <= ParseQ(v).value - c <= 0.0005
      && (x >= 0.0 ==> ParseQ(v).value >= 0.0)
      && (x < -0.0005 ==> ParseQ(v).value < 0.0)
  {
    if ParseFloat(v).Some? {
      var x := ParseFloat(v).value;
      RoundTo3Properties(if x < 1.0 then x else 1.0);
    }
  }

  /** `parseQ` reads the text `toString` writes for a thousandths value in [0, 1] back as that value. */
  lemma ParseQFormatQ(x: real)
    requires 0.0 <= x <= 1.0 && IsThousandths(x)
    ensures ParseQ(FormatQ(x)) == Num(x)
  {
    FormatQRoundTrip(x);
    RoundTo3Exact(x);
  }

  /** A positive number below half a thousandth is read as 0, and 0 is written as `0`. */
  lemma TinyQ(v: string)
    requires ParseFloat(v).Some? && 0.0 <= ParseFloat(v).value < 0.0005
    ensures ParseQ(v) == Num(0.0)
    ensures QText(ParseQ(v)) == "; q=0"
  {
    var x := ParseFloat(v).value;
    assert RoundThousandths(x) == 0;
    ZeroText();
  }

  lemma ZeroText()
    ensures FormatQ(0.0) == "0"
  {
    var t := Fixed3(0);
    assert t == ['0', '.', '0', '0', '0'];
    assert ZerosEnd(t, 5) == 2;
    assert StripZeros(t) == ['0', '.'];
  }

  /**
   * A name and value: `q` sets the quality whatever came before, blank names
   * and values change nothing, and any other name sets that parameter only
   * while the object has no own `q`.
   */
  lemma AssignFrame(m: MT, n: string, v: string)
    ensures var r := Assign(m, n, v);
      && r.fullType == m.fullType
      && (n == "q" && v != [] ==> r == m.(q := ParseQ(v)))
      && (n == [] || v == [] ==> r == m)
      && (n != "q" && !m.q.NoQ? ==> r == m)
      && (n != "q" && n != [] && v != [] && m.q.NoQ? ==> r == m.(params := m.params[n := Unquote(v)]))
  {
  }

  /** Once the object has its own `q`, no field adds a parameter, and `q` stays an own property. */
  lemma {:induction false} ApplyFieldsAfterQ(m: MT, fields: seq<string>)
    requires !m.q.NoQ?
    ensures ApplyFields(m, fields).params == m.params
    ensures !ApplyFields(m, fields).q.NoQ?
    decreases |fields|
  {
    if fields != [] {
      var f := fields[|fields| - 1];
      ApplyFieldsAfterQ(m, fields[..|fields| - 1]);
      AssignAfterQ(ApplyFields(m, fields[..|fields| - 1]), Trim(CT.NamePart(f)), Trim(CT.ValuePart(f)));
    }
  }

  lemma AssignAfterQ(m: MT, n: string, v: string)
    requires !m.q.NoQ?
    ensures Assign(m, n, v).params == m.params && !Assign(m, n, v).q.NoQ?
  {
  }

  lemma {:induction false} ApplyFieldsAppend(m: MT, a: seq<string>, b: seq<string>)
    ensures ApplyFields(m, a + b) == ApplyFields(ApplyFields(m, a), b)
    decreases |b|
  {
    if b == [] {
      assert a + b == a;
    } else {
      var b' := b[..|b| - 1];
      assert (a + b)[..|a + b| - 1] == a + b';
      assert (a + b)[|a + b| - 1] == b[|b| - 1];
      ApplyFieldsAppend(m, a, b');
    }
  }

  /** A `q` field hides every ordinary field after it: the parameters are those set before it. */
  lemma ParamsAfterQField(m: MT, before: seq<string>, qf: string, after: seq<string>)
    requires Trim(CT.NamePart(qf)) == "q" && Trim(CT.ValuePart(qf)) != []
    ensures ApplyFields(m, before + [qf] + after).params == ApplyFields(m, before).params
  {
    var m1 := ApplyFields(m, before);
    ApplyFieldsAppend(m, before + [qf], after);
    ApplyFieldsAppend(m, before, [qf]);
    assert ApplyFields(m1, [qf]) == ParseParam(ApplyFields(m1, []), qf);
    ApplyFieldsAfterQ(ParseParam(m1, qf), after);
  }

  /**
   * A copy always has `q` as an own property, so a string second argument
   * adds no parameters to it; it can still set `q`.
   */
  lemma CopyThenString(m: MT, t: string)
    ensures Construct(FromMedia(m), ParamString(t)).params == m.params
    ensures Construct(FromMedia(m), ParamString(t)).fullType == m.fullType
  {
    ApplyFieldsAfterQ(Base(FromMedia(m)), Split(t, ';', '"'));
  }

  /**
   * An object second argument sets `q` through `parseQ` when it has that
   * key, and every other key through `parseParamValue`; the remaining
   * parameters are kept.
   */
  lemma ConstructObject(o: Origin, obj: map<string, string>)
    ensures var b := Base(o);
      var r := Construct(o, ParamObject(obj));
      && r.fullType == b.fullType
      && r.q == (if "q" in obj then ParseQ(obj["q"]) else b.q)
      && (forall k :: k in obj && k != "q" ==> k in r.params && r.params[k] == Unquote(obj[k]))
      && (forall k :: k in b.params && (k !in obj || k == "q") ==> k in r.params && r.params[k] == b.params[k])
      && (forall k :: k in r.params ==> k in b.params || k in obj)
  {
  }

  /** `parseMedia` always leaves a number or `NaN` in `q`, 1 when the string gives none. */
  lemma MediaOfQuality(s: string)
    ensures MediaOf(s).q.Num? || MediaOf(s).q.NaN?
    ensures Construct(FromString(s), NoOverrides).q.NoQ? ==> MediaOf(s) == Construct(FromString(s), NoOverrides).(q := Num(1.0))
    ensures !Construct(FromString(s), NoOverrides).q.NoQ? ==> MediaOf(s) == Construct(FromString(s), NoOverrides)
  {
    var m := Construct(FromString(s), NoOverrides);
    var c := Split(s, ';', '"');
    NoUndefinedFromFields(MT(c[0], map[], NoQ), c[1..]);
  }

  /** Parsing fields never leaves `q` an own property holding `undefined`. */
  lemma {:induction false} NoUndefinedFromFields(m: MT, fields: seq<string>)
    requires !m.q.Undefined?
    ensures !ApplyFields(m, fields).q.Undefined?
    decreases |fields|
  {
    if fields != [] {
      var f := fields[|fields| - 1];
      NoUndefinedFromFields(m, fields[..|fields| - 1]);
      AssignKeepsDefined(ApplyFields(m, fields[..|fields| - 1]), Trim(CT.NamePart(f)), Trim(CT.ValuePart(f)));
    }
  }

  lemma AssignKeepsDefined(m: MT, n: string, v: string)
    requires !m.q.Undefined?
    ensures !Assign(m, n, v).q.Undefined?
  {
  }

  // ---------------------------------------------------------------------
  // The documented examples
  // ---------------------------------------------------------------------

  lemma AssignAt(m: MT, name: string, value: string)
    requires IsToken(name) && IsToken(value)
    ensures ParseParam(m, name + "=" + value) == Assign(m, name, value)
  {
    CT.NamePartAt(name, value);
    TokenNoSeparators(name);
    TokenNoSeparators(value);
    TrimIdentity(name);
    TrimIdentity(value);
  }

  /** A `name=value` field of two tokens sets that parameter while there is no own `q`. */
  lemma TokenField(m: MT, name: string, value: string)
    requires IsToken(name) && IsToken(value) && name != "q" && m.q.NoQ?
    ensures ParseParam(m, name + "=" + value) == m.(params := m.params[name := value])
  {
    AssignAt(m, name, value);
    assert IsTchar(value[0]);
  }

  lemma ApplyOne(m: MT, f: string)
    ensures ApplyFields(m, [f]) == ParseParam(m, f)
  {
    assert [f][..0] == [];
  }

  lemma ApplyTwo(m: MT, f: string, g: string)
    ensures ApplyFields(m, [f, g]) == ParseParam(ParseParam(m, f), g)
  {
    ApplyFieldsAppend(m, [f], [g]);
    assert [f] + [g] == [f, g];
    ApplyOne(m, f);
    ApplyOne(ApplyFields(m, [f]), g);
  }

  /** An object second argument with one ordinary token entry sets just that parameter. */
  lemma ObjectOverride(o: Origin, b: MT, k: string, v: string)
    requires Base(o) == b && k != "q" && IsToken(v)
    ensures Construct(o, ParamObject(map[k := v])) == b.(params := b.params[k := v])
  {
    ObjectParamsSingle(k, v);
    UnionSingle(b.params, k, v);
  }

  lemma ObjectParamsSingle(k: string, v: string)
    requires k != "q" && IsToken(v)
    ensures ObjectParams(map[k := v]) == map[k := v]
  {
    var obj := map[k := v];
    assert IsTchar(v[0]);
    assert Unquote(v) == v;
    var op := ObjectParams(obj);
    assert op.Keys == {k} && op[k] == v;
  }

  lemma UnionSingle(a: map<string, string>, k: string, v: string)
    ensures a + map[k := v] == a[k := v]
  {
  }

  lemma UpdateAgain(a: string, b: string, x: string, y: string, z: string)
    requires a != b
    ensures map[a := x][b := y][a := z] == map[a := z, b := y]
  {
  }

  /** A string second argument: its fields are parsed after those of the first. */
  lemma StringOverride(o: Origin, b: MT, t: string, fs: seq<string>)
    requires Base(o) == b && Split(t, ';', '"') == fs
    ensures Construct(o, ParamString(t)) == ApplyFields(b, fs)
  {
  }

  lemma SplitTwo(a: string, b: string, s: string)
    requires a != [] && IsTrimmed(a) && NoSeparators(a)
    requires b != [] && IsTrimmed(b) && NoSeparators(b)
    requires s == a + [';'] + b
    ensures Split(s, ';', '"') == [a, b]
  {
    assert a + Prefixed([b], ';') == s by {
      assert Prefixed([b], ';') == [';'] + b + Prefixed([], ';');
    }
    SplitPlain(a, [b]);
    TrimAllOne(b);
    TrimIdentity(b);
  }

  lemma ExampleSplitBase()
    ensures Split("text/html;l=3", ';', '"') == ["text/html", "l=3"]
  {
    SplitTwo("text/html", "l=3", "text/html;l=3");
  }

  lemma ExampleSplitOverride()
    ensures Split("p=4;l=5", ';', '"') == ["p=4", "l=5"]
  {
    SplitTwo("p=4", "l=5", "p=4;l=5");
  }

  /** A one-letter name with a one-digit value, as in the documented examples, sets that parameter. */
  lemma CharField(m: MT, n: char, v: char)
    requires m.q.NoQ? && 'a' <= n <= 'z' && n != 'q' && '0' <= v <= '9'
    ensures ParseParam(m, [n, '=', v]) == m.(params := m.params[[n] := [v]])
  {
    assert [n] + "=" + [v] == [n, '=', v];
    TokenField(m, [n], [v]);
  }

  /** `text/html;l=3` on its own. */
  lemma ExampleBase()
    ensures Base(FromString("text/html;l=3")) == MT("text/html", map["l" := "3"], NoQ)
  {
    ExampleSplitBase();
    var c := ["text/html", "l=3"];
    assert c[1..] == ["l=3"];
    var m0 := MT("text/html", map[], NoQ);
    ApplyOne(m0, "l=3");
    CharField(m0, 'l', '3');
  }

  /** The first documented example: `new MediaType('text/html;l=3', { p: 4 })`. */
  lemma ExampleObject()
    ensures Construct(FromString("text/html;l=3"), ParamObject(map["p" := "4"]))
         == MT("text/html", map["l" := "3", "p" := "4"], NoQ)
  {
    ExampleBase();
    ObjectOverride(FromString("text/html;l=3"), MT("text/html", map["l" := "3"], NoQ), "p", "4");
    assert map["l" := "3"]["p" := "4"] == map["l" := "3", "p" := "4"];
  }

  /** The second documented example: `new MediaType('text/html;l=3', 'p=4;l=5')`; the later `l` wins. */
  lemma ExampleString()
    ensures Construct(FromString("text/html;l=3"), ParamString("p=4;l=5"))
         == MT("text/html", map["l" := "5", "p" := "4"], NoQ)
  {
    ExampleBase();
    ExampleSplitOverride();
    var m0 := MT("text/html", map["l" := "3"], NoQ);
    StringOverride(FromString("text/html;l=3"), m0, "p=4;l=5", ["p=4", "l=5"]);
    ApplyTwo(m0, "p=4", "l=5");
    CharField(m0, 'p', '4');
    CharField(m0.(params := m0.params["p" := "4"]), 'l', '5');
    UpdateAgain("l", "p", "3", "4", "5");
  }

  // ---------------------------------------------------------------------
  // toString and the parser
  // ---------------------------------------------------------------------

  /** The `; q=` field as the splitter hands it on: zero or one fields, with the blank. */
  function QFields(q: Quality): (r: seq<string>) {
    if q.Num? && q.value >= 0.0 then [" q=" + FormatQ(q.value)] else []
  }

  lemma QFieldsText(q: Quality)
    ensures QText(q) == Prefixed(QFields(q), ';')
    ensures forall e :: e in QFields(q) ==> e != [] && NoSeparators(e)
  {
    if q.Num? && q.value >= 0.0 {
      FormatQDigits(q.value);
      var e := " q=" + FormatQ(q.value);
      assert Prefixed([e], ';') == [';'] + e + Prefixed([], ';');
      assert QText(q) == [';'] + e;
    }
  }

  lemma SerializeText(m: MT)
    ensures Serialize(m) == m.fullType + Prefixed(ParamFields(m.params, SortedKeys(m.params.Keys)) + QFields(m.q), ';')
  {
    var pf := ParamFields(m.params, SortedKeys(m.params.Keys));
    var ex := QFields(m.q);
    QFieldsText(m.q);
    PrefixedAppend(pf, ex, ';');
    AppendAssoc(m.fullType, Prefixed(pf, ';'), Prefixed(ex, ';'));
  }

  /** The `q` field comes back from the splitter trimmed. */
  lemma QFieldsTrimmed(q: Quality)
    ensures TrimAll(QFields(q)) == if q.Num? && q.value >= 0.0 then ["q=" + FormatQ(q.value)] else []
  {
    if q.Num? && q.value >= 0.0 {
      var core := "q=" + FormatQ(q.value);
      FormatQDigits(q.value);
      assert " q=" + FormatQ(q.value) == " " + core + "";
      TrimPadded(" ", core, "");
      TrimAllOne(" " + core + "");
    }
  }

  lemma TrimAllOne(x: string)
    ensures TrimAll([x]) == [Trim(x)]
  {
    TrimAllSnoc([], x);
    assert [] + [x] == [x];
  }

  /** A media type `toString` writes out in full and the parser reads back unchanged. */
  predicate Canonical(m: MT) {
    && m.fullType != [] && IsTrimmed(m.fullType) && NoSeparators(m.fullType)
    && (forall n :: n in m.params ==> IsToken(n) && n != "q" && SafeValue(m.params[n]))
    && (m.q.NoQ? || (m.q.Num? && 0.0 <= m.q.value <= 1.0 && IsThousandths(m.q.value)))
  }

  lemma ParseParamField(m: MT, k: string, v: string)
    requires IsToken(k) && k != "q" && m.q.NoQ?
    ensures ParseParam(m, ParamField(k, v)) == m.(params := m.params[k := v])
  {
    CT.TokenNoEquals(k);
    CT.NamePartAt(k, RenderValue(v));
    TokenNoSeparators(k);
    TrimIdentity(k);
    CT.RenderValueTrimmed(v);
    TrimIdentity(RenderValue(v));
    UnquoteRenderValue(v);
  }

  lemma {:induction false} ApplyParamFields(t: string, params: map<string, string>, keys: seq<string>)
    requires forall k :: k in keys ==> k in params && IsToken(k) && k != "q"
    ensures ApplyFields(MT(t, map[], NoQ), ParamFields(params, keys))
         == MT(t, map k | k in params && k in keys :: params[k], NoQ)
    decreases |keys|
  {
    if keys != [] {
      var ks := keys[..|keys| - 1];
      var k := keys[|keys| - 1];
      assert keys == ks + [k];
      ParamFieldsSnoc(params, ks, k);
      var pf := ParamFields(params, keys);
      assert pf[..|pf| - 1] == ParamFields(params, ks);
      ApplyParamFields(t, params, ks);
      ParseParamField(MT(t, map k | k in params && k in ks :: params[k], NoQ), k, params[k]);
      CT.RestrictSnoc(params, ks, k);
    }
  }

  lemma ParseQFieldText(m: MT, x: real)
    requires 0.0 <= x <= 1.0 && IsThousandths(x)
    ensures ParseParam(m, "q=" + FormatQ(x)) == m.(q := Num(x))
  {
    var f := FormatQ(x);
    FormatQDigits(x);
    assert "q=" + f == "q" + "=" + f;
    CT.NamePartAt("q", f);
    TrimIdentity("q");
    TrimIdentity(f);
    ParseQFormatQ(x);
  }

  /** Splitting what `toString` writes for a canonical media type gives the type, each `name=value` field and the `q` field. */
  lemma SplitSerialized(m: MT)
    requires Canonical(m)
    ensures var keys := SortedKeys(m.params.Keys);
      Split(Serialize(m), ';', '"') == [m.fullType] + ParamFields(m.params, keys) + TrimAll(QFields(m.q))
  {
    var keys := SortedKeys(m.params.Keys);
    QFieldsText(m.q);
    SerializeText(m);
    Header.SplitSerialized(m.fullType, m.params, keys, QFields(m.q));
  }

  /** Parsing the printed text replays its fields on the bare type. */
  lemma SerializedFields(m: MT)
    requires Canonical(m)
    ensures Construct(FromString(Serialize(m)), NoOverrides)
      == ApplyFields(MT(m.fullType, map[], NoQ), ParamFields(m.params, SortedKeys(m.params.Keys)) + TrimAll(QFields(m.q)))
  {
    var keys := SortedKeys(m.params.Keys);
    SplitSerialized(m);
    CT.TailOfCons(m.fullType, ParamFields(m.params, keys), TrimAll(QFields(m.q)));
  }

  /** The printed quality field, replayed on a media type with no quality, restores it. */
  lemma ApplyQFields(m1: MT, q: Quality)
    requires m1.q.NoQ? && (q.NoQ? || (q.Num? && 0.0 <= q.value <= 1.0 && IsThousandths(q.value)))
    ensures ApplyFields(m1, TrimAll(QFields(q))) == m1.(q := q)
  {
    QFieldsTrimmed(q);
    var ex := TrimAll(QFields(q));
    if q.Num? {
      assert ApplyFields(m1, ex) == ParseParam(ApplyFields(m1, []), ex[0]);
      ParseQFieldText(m1, q.value);
    } else {
      assert ex == [];
    }
  }

  /** `toString` and the parser are inverses on canonical media types. */
  lemma SerializeRoundTrip(m: MT)
    requires Canonical(m)
    ensures Construct(FromString(Serialize(m)), NoOverrides) == m
  {
    var keys := SortedKeys(m.params.Keys);
    var pf := ParamFields(m.params, keys);
    var m0 := MT(m.fullType, map[], NoQ);
    SerializedFields(m);
    ApplyFieldsAppend(m0, pf, TrimAll(QFields(m.q)));
    ApplyParamFields(m.fullType, m.params, keys);
    CT.RestrictAll(m.params, keys);
    ApplyQFields(MT(m.fullType, map k | k in m.params && k in keys :: m.params[k], NoQ), m.q);
  }

  /**
   * A quality `toString` does not write (undefined, NaN, or a negative
   * number, which `parseQ` does produce) is lost: the text reads back with
   * no quality at all.
   */
  lemma UnwrittenQualityLost(m: MT)
    requires Canonical(m.(q := NoQ)) && (m.q.Undefined? || m.q.NaN? || (m.q.Num? && m.q.value < 0.0))
    ensures Construct(FromString(Serialize(m)), NoOverrides) == m.(q := NoQ) != m
  {
    assert Serialize(m) == Serialize(m.(q := NoQ));
    SerializeRoundTrip(m.(q := NoQ));
  }

  // ---------------------------------------------------------------------
  // A value ending in a backslash
  // ---------------------------------------------------------------------

  /** The media type `t` with `a` set to `x\` and `q` set to 0. */
  const BackslashValued := MT("t", map["a" := "x\\"], Num(0.0))

  /** What `toString` writes for it: the escaped value ends in `\\` right before the closing quote. */
  const BackslashText := "t;a=\"x\\\\\"; q=0"

  /** `x\` is no token, so it is written quoted, its backslash doubled. */
  lemma BackslashRendered()
    ensures RenderValue("x\\") == "\"x\\\\\""
  {
    var v := "x\\";
    assert !IsTchar(v[1]);
    assert v[1..] == ['\\'];
    assert Escape(v[1..]) == ['\\', '\\'] + Escape([]);
    assert Escape(v) == [v[0]] + Escape(v[1..]);
  }

  /** The quality 0 is written as the field ` q=0`. */
  lemma ZeroQField()
    ensures QFields(Num(0.0)) == [" q=0"]
  {
    ZeroText();
    assert " q=" + "0" == " q=0";
  }

  /** The fields `toString` writes after the type: the quoted `a` and the quality. */
  lemma BackslashFields(params: map<string, string>)
    requires params == map["a" := "x\\"]
    ensures ParamFields(params, SortedKeys(params.Keys)) + QFields(Num(0.0)) == ["a=\"x\\\\\"", " q=0"]
  {
    CT.SingleKey(params, "a");
    BackslashRendered();
    assert ParamField("a", "x\\") == "a=\"x\\\\\"";
    assert ParamFields(params, ["a"]) == ["a=\"x\\\\\""];
    ZeroQField();
  }

  /** The type and the two fields, joined by `;`, spell the printed text. */
  lemma BackslashJoined(t: string, a: string, b: string)
    requires t == "t" && a == "a=\"x\\\\\"" && b == " q=0"
    ensures t + ([';'] + a + [';'] + b) == BackslashText
  {
  }

  lemma BackslashSerialized()
    ensures Serialize(BackslashValued) == BackslashText
  {
    var m := BackslashValued;
    var a, b := "a=\"x\\\\\"", " q=0";
    SerializeText(m);
    BackslashFields(m.params);
    PrefixedPair(a, b, ';');
    BackslashJoined(m.fullType, a, b);
  }

  /** The span opened at index 4 never closes: the only later quote follows a backslash. */
  lemma BackslashUnclosed(s: string)
    requires s == BackslashText
    ensures CloseQuote(s, '"', 5) == None
  {
    assert CloseQuote(s, '"', 14) == None;
    assert CloseQuote(s, '"', 13) == None;
    assert CloseQuote(s, '"', 12) == None;
    assert CloseQuote(s, '"', 11) == None;
    assert CloseQuote(s, '"', 10) == None;
    assert CloseQuote(s, '"', 9) == None;
    assert !Closes(s, '"', 8);
    assert CloseQuote(s, '"', 8) == None;
    assert CloseQuote(s, '"', 7) == None;
    assert CloseQuote(s, '"', 6) == None;
    assert CloseQuote(s, '"', 5) == None;
  }

  /** The first stop is the `;` at index 1; the next, the opening quote at index 4. */
  lemma BackslashStops(s: string)
    requires s == BackslashText
    ensures NextStop(s, ';', '"', 1) == Some(1) && s[1] != '"'
    ensures NextStop(s, ';', '"', 3) == Some(4) && s[4] == '"'
  {
    assert s[1] == ';' && s[3] == '=' && s[4] == '"';
    assert NextStop(s, ';', '"', 4) == Some(4);
  }

  /** The scan splits at the first `;` and then runs into the unclosed span. */
  lemma BackslashPieces(s: string)
    requires s == BackslashText
    ensures Pieces(s, ';', '"', 0, 0) == [s[0..1], s[2..]]
  {
    BackslashStops(s);
    PiecesSplit(s, ';', '"', 0, 0, 1);
    BackslashUnclosed(s);
    PiecesQuote(s, ';', '"', 2, 2, 4);
  }

  /**
   * The splitter takes the closing quote, which follows a backslash, for an
   * escaped one, so the span never closes and the `q` field stays inside it.
   */
  lemma BackslashSplit()
    ensures Split(BackslashText, ';', '"') == ["t", BackslashText[2..]]
  {
    var s := BackslashText;
    BackslashPieces(s);
    assert s[0..1] == "t";
    TrimAllPair("t", s[2..]);
  }

  /** The second field: `a` gets everything after the `=`, quotes and `q` field included. */
  lemma BackslashField(m: MT, f: string)
    requires m.q.NoQ? && f == BackslashText[2..]
    ensures ParseParam(m, f) == m.(params := m.params["a" := "\"x\\\\\"; q=0"])
  {
    var v := "\"x\\\\\"; q=0";
    BackslashFieldText(f, v);
    CT.NamePartAt("a", v);
    TrimIdentity("a");
    BackslashValueKept(v);
  }

  /** The second field is `a=` followed by the rest of the text. */
  lemma BackslashFieldText(f: string, v: string)
    requires f == BackslashText[2..] && v == "\"x\\\\\"; q=0"
    ensures f == "a" + "=" + v
  {
  }

  /** The value read for `a` is not trimmed and, ending in no quote, not unquoted. */
  lemma BackslashValueKept(v: string)
    requires v == "\"x\\\\\"; q=0"
    ensures Trim(v) == v && Unquote(v) == v
  {
    TrimIdentity(v);
  }

  lemma BackslashParsed()
    ensures Construct(FromString(BackslashText), NoOverrides) == MT("t", map["a" := "\"x\\\\\"; q=0"], NoQ)
  {
    var f := BackslashText[2..];
    BackslashSplit();
    var c := ["t", f];
    assert c[0] == "t" && c[1..] == [f];
    ApplyOne(MT("t", map[], NoQ), f);
    BackslashField(MT("t", map[], NoQ), f);
  }

  /**
   * `toString` and the parser are not inverses once a value ends in a
   * backslash: the text after it, here the `q` field, is read as part of the
   * value and the quality is lost.
   */
  lemma BackslashRoundTripFails()
    ensures Construct(FromString(Serialize(BackslashValued)), NoOverrides)
         == MT("t", map["a" := "\"x\\\\\"; q=0"], NoQ)
  {
    BackslashSerialized();
    BackslashParsed();
  }
}
