/**
 * `content-type.js`: the `MediaType` object, its parameter parser and its
 * `toString`. The object is a class whose fields the constructor and
 * `parseParameter` update in place; each of its methods is proved against a
 * function on `MT` values, and the properties the library promises are
 * lemmas about those functions.
 */
module ContentType {
  import opened Wrappers
  import opened Text
  import opened Decimal
  import opened Splitter
  import opened Header
  import opened Seqs

  /** The `q` property: not set, a number, or `NaN` when `parseFloat` finds no number. */
  datatype Quality = NoQ | Num(value: real) | NaN

  /** A media type as a value: its `type` property (here `fullType`, `type` being a Dafny keyword), its `params` and its `q`. */
  datatype MT = MT(fullType: string, params: map<string, string>, q: Quality)

  /** The first constructor argument: a string, another media type, or anything else. */
  datatype Origin = Blank | FromString(s: string) | FromMedia(m: MT)

  /** The second constructor argument: a string of parameters, an object, or anything else. */
  datatype Overrides = NoOverrides | ParamString(s: string) | ParamObject(p: map<string, string>)

  /** A media type with nothing set, as the constructor starts out. */
  const Empty := MT("", map[], NoQ)

  /** `s.split("=", 1)[0]`: the text before the first `=`, or all of it. */
  function NamePart(s: string): (r: string)
    ensures forall k :: 0 <= k < |r| ==> r[k] != '='
    ensures r == s || (|r| < |s| && s[|r|] == '=' && r == s[..|r|])
  {
    match IndexOf(s, '=', 0)
    case None => s
    case Some(i) => s[..i]
  }

  /** `s.substr(name.length + 1)`: what follows the first `=`, empty when there is none. */
  function ValuePart(s: string): (r: string) {
    var n := |NamePart(s)|;
    if n < |s| then s[n + 1..] else []
  }

  /** `parseFloat(value)`, keeping `NaN` apart from the numbers. */
  function QualityOf(v: string): (r: Quality) {
    match ParseFloat(v)
    case Some(x) => Num(x)
    case None => NaN
  }

  /** What a trimmed name and value do to a media type. */
  function Assign(m: MT, name: string, value: string): (r: MT)
    ensures r.fullType == m.fullType
  {
    if value == [] || name == [] then m
    else if name == "q" then m.(q := QualityOf(value))
    else m.(params := m.params[name := Unquote(value)])
  }

  /** `parseParameter(s)` on the media type `m`. */
  function ParseParam(m: MT, s: string): (r: MT)
    ensures r.fullType == m.fullType
  {
    Assign(m, Trim(NamePart(s)), Trim(ValuePart(s)))
  }

  /** `parseParameter` applied to each field in turn. */
  function ApplyFields(m: MT, fields: seq<string>): (r: MT)
    ensures r.fullType == m.fullType
    decreases |fields|
  {
    if fields == [] then m
    else ParseParam(ApplyFields(m, fields[..|fields| - 1]), fields[|fields| - 1])
  }

  /** The media type after the first constructor argument. */
  function Base(o: Origin): (r: MT) {
    match o
    case Blank => Empty
    case FromString(s) =>
      var c := Split(s, ';', '"');
      ApplyFields(MT(c[0], map[], NoQ), c[1..])
    case FromMedia(m) => m
  }

  /** `new MediaType(o, p)`. */
  function Construct(o: Origin, p: Overrides): (r: MT) {
    var base := Base(o);
    match p
    case NoOverrides => base
    case ParamString(t) => ApplyFields(base, Split(t, ';', '"'))
    case ParamObject(obj) => base.(params := base.params + obj)
  }

  /** The parameter values `toString` writes, in the order of `keys`, with nothing between them. */
  function ValuesText(params: map<string, string>, keys: seq<string>): (r: string)
    requires forall k :: k in keys ==> k in params
  {
    if keys == [] then []
    else ValuesText(params, keys[..|keys| - 1]) + RenderValue(params[keys[|keys| - 1]])
  }

  /** The `;q=` suffix, written for a number that is not negative. */
  function QText(q: Quality): (r: string) {
    if q.Num? && q.value >= 0.0 then ";q=" + FormatQ(q.value) else []
  }

  /** `toString()` as written: the type, then each value in key order, then the quality. */
  function Serialize(m: MT): (r: string) {
    m.fullType + ValuesText(m.params, SortedKeys(m.params.Keys)) + QText(m.q)
  }

  /** `toString()` as evidently intended: each parameter written as `;name=value`. */
  function SerializeNamed(m: MT): (r: string) {
    m.fullType + Prefixed(ParamFields(m.params, SortedKeys(m.params.Keys)), ';') + QText(m.q)
  }

  /** The `MediaType` object. */
  class MediaType {
    /** The `type` property. */
    var fullType: string
    var params: map<string, string>
    var q: Quality

    function Value(): (r: MT)
      reads this
    {
      MT(fullType, params, q)
    }

    constructor (o: Origin, p: Overrides)
      ensures Value() == Construct(o, p)
    {
      fullType := "";
      params := map[];
      q := NoQ;
      new;
      match o {
        case FromString(s) =>
          var c := SplitQuotedString(s, ';', '"');
          fullType := c[0];
          ParseAll(c[1..]);
        case FromMedia(m) =>
          fullType := m.fullType;
          q := m.q;
          AssignAll(m.params);
          assert params == m.params;
        case Blank =>
      }
      assert Value() == Base(o);
      ghost var base := Value();
      match p {
        case ParamString(t) =>
          var c := SplitQuotedString(t, ';', '"');
          ParseAll(c);
        case ParamObject(obj) =>
          AssignAll(obj);
        case NoOverrides =>
      }
      assert Value() == Construct(o, p) by {
        assert Base(o) == base;
      }
    }

    /** The loop of the constructor that hands each field to `parseParameter`. */
    method ParseAll(fields: seq<string>)
      modifies this
      ensures Value() == ApplyFields(old(Value()), fields)
    {
      var i := 0;
      while i < |fields|
        invariant 0 <= i <= |fields|
        invariant Value() == ApplyFields(old(Value()), fields[..i])
      {
        assert fields[..i + 1][..i] == fields[..i];
        ParseParameter(fields[i]);
        i := i + 1;
      }
      assert fields[..i] == fields;
    }

    /** The `for (var n in obj)` loop of the constructor, copying each entry into `params`. */
    method AssignAll(obj: map<string, string>)
      modifies this
      ensures Value() == old(Value()).(params := old(params) + obj)
    {
      var todo := obj.Keys;
      ghost var done: set<string> := {};
      while todo != {}
        invariant todo + done == obj.Keys && todo !! done
        invariant fullType == old(fullType) && q == old(q)
        invariant params == old(params) + map n | n in done :: obj[n]
        decreases todo
      {
        var n :| n in todo;
        params := params[n := obj[n]];
        todo := todo - {n};
        done := done + {n};
      }
      assert (map n | n in done :: obj[n]) == obj;
    }

    /** `parseParameter(s)`. */
    method ParseParameter(s: string)
      modifies this
      ensures Value() == ParseParam(old(Value()), s)
    {
      var name, value := NameAndValue(s);
      ghost var m := Value();
      assert ParseParam(m, s) == Assign(m, name, value);
      if value == [] || name == [] {
        return;
      }
      if name == "q" {
        q := QualityOf(value);
      } else {
        params := params[name := Unquote(value)];
      }
      assert Value() == Assign(m, name, value);
    }

    /** `toString()`. */
    method ToString() returns (str: string)
      ensures str == Serialize(Value())
    {
      str := AppendValues(fullType, params, SortedKeys(params.Keys));
      if q.Num? && q.value >= 0.0 {
        var digits := FormatQ(q.value);
        assert QText(q) == ";q=" + digits;
        str := str + (";q=" + digits);
      }
    }
  }

  /** The loop of `toString()` over the sorted keys, appending each value to `str`. */
  method AppendValues(str0: string, params: map<string, string>, keys: seq<string>) returns (str: string)
    requires forall k :: k in keys ==> k in params
    ensures str == str0 + ValuesText(params, keys)
  {
    str := str0;
    var i := 0;
    while i < |keys|
      invariant 0 <= i <= |keys|
      invariant str == str0 + ValuesText(params, keys[..i])
    {
      var v := RenderValue(params[keys[i]]);
      ValuesTextStep(params, keys, i);
      AppendAssoc(str0, ValuesText(params, keys[..i]), v);
      str := str + v;
      i := i + 1;
    }
    WholePrefix(keys, i);
  }

  lemma ValuesTextStep(params: map<string, string>, keys: seq<string>, i: nat)
    requires forall k :: k in keys ==> k in params
    requires i < |keys|
    ensures ValuesText(params, keys[..i + 1]) == ValuesText(params, keys[..i]) + RenderValue(params[keys[i]])
  {
    assert keys[..i + 1][..i] == keys[..i];
  }

  /** The first lines of `parseParameter(s)`: the trimmed text before the first `=` and after it. */
  method NameAndValue(s: string) returns (name: string, value: string)
    ensures name == Trim(NamePart(s)) && value == Trim(ValuePart(s))
  {
    var cut := IndexOf(s, '=', 0);
    var first := if cut.Some? then s[..cut.value] else s;
    assert first == NamePart(s);
    name := Trim(first);
    var rest := if |first| < |s| then s[|first| + 1..] else [];
    assert rest == ValuePart(s);
    value := Trim(rest);
  }

  /** `parseMedia(str)`. */
  method ParseMedia(s: string) returns (m: MediaType)
    ensures fresh(m)
    ensures m.Value() == Construct(FromString(s), NoOverrides)
  {
    m := new MediaType(FromString(s), NoOverrides);
  }

  /** A field is cut at its first `=`: the name has none, and any later `=` belongs to the value. */
  lemma NamePartAt(name: string, value: string)
    requires forall k :: 0 <= k < |name| ==> name[k] != '='
    ensures NamePart(name + "=" + value) == name
    ensures ValuePart(name + "=" + value) == value
  {
    var s := name + "=" + value;
    assert s[|name|] == '=';
    assert s[..|name|] == name;
    assert s[|name| + 1..] == value;
  }

  /** `parseParameter` of `name=value` assigns the trimmed value to the trimmed name. */
  lemma ParseParamFirstEquals(m: MT, name: string, value: string)
    requires forall k :: 0 <= k < |name| ==> name[k] != '='
    ensures ParseParam(m, name + "=" + value) == Assign(m, Trim(name), Trim(value))
  {
    NamePartAt(name, value);
  }

  /** A field without `=` has an empty value, and is ignored. */
  lemma ParseParamNoEquals(m: MT, s: string)
    requires forall k :: 0 <= k < |s| ==> s[k] != '='
    ensures ParseParam(m, s) == m
  {
    assert ValuePart(s) == [];
  }

  /** A field whose name or value is blank is ignored. */
  lemma ParseParamBlank(m: MT, s: string)
    requires Trim(NamePart(s)) == [] || Trim(ValuePart(s)) == []
    ensures ParseParam(m, s) == m
  {
  }

  /**
   * A name and value change only what the name names: the `q` property for
   * the name `q`, otherwise that one parameter.
   */
  lemma AssignFrame(m: MT, n: string, v: string)
    ensures var r := Assign(m, n, v);
      && r.fullType == m.fullType
      && (n != "q" ==> r.q == m.q)
      && (n == "q" ==> r.params == m.params)
      && (forall k :: k != n && k in m.params ==> k in r.params && r.params[k] == m.params[k])
      && (forall k :: k in r.params ==> k in m.params || k == n)
  {
  }

  /** Of two fields for the same name, the later one wins. */
  lemma ParseParamLaterWins(m: MT, f1: string, f2: string)
    requires Trim(NamePart(f1)) == Trim(NamePart(f2))
    requires Trim(ValuePart(f2)) != []
    ensures ParseParam(ParseParam(m, f1), f2) == ParseParam(m, f2)
  {
    AssignTwice(m, Trim(NamePart(f1)), Trim(ValuePart(f1)), Trim(ValuePart(f2)));
  }

  lemma AssignTwice(m: MT, n: string, v1: string, v2: string)
    requires v2 != []
    ensures Assign(Assign(m, n, v1), n, v2) == Assign(m, n, v2)
  {
  }

  lemma {:induction false} ApplyFieldsAppend(m: MT, a: seq<string>, b: seq<string>)
    ensures ApplyFields(m, a + b) == ApplyFields(ApplyFields(m, a), b)
    decreases |b|
  {
    if b == [] {
      assert a + b == a;
    } else {
      var b' := b[..|b| - 1];
      assert (a + b)[..|a + b| - 1] == a + b';
      assert (a + b)[|a + b| - 1] == b[|b| - 1];
      ApplyFieldsAppend(m, a, b');
    }
  }

  /** A second argument that is a string is parsed as if its fields followed those of the first. */
  lemma ConstructParamString(s: string, t: string)
    ensures var c := Split(s, ';', '"');
      Construct(FromString(s), ParamString(t)) == ApplyFields(MT(c[0], map[], NoQ), c[1..] + Split(t, ';', '"'))
  {
    var c := Split(s, ';', '"');
    var d := Split(t, ';', '"');
    var m0 := MT(c[0], map[], NoQ);
    assert Base(FromString(s)) == ApplyFields(m0, c[1..]);
    assert Construct(FromString(s), ParamString(t)) == ApplyFields(ApplyFields(m0, c[1..]), d);
    ApplyFieldsAppend(m0, c[1..], d);
  }

  /** Copying a media type and then overriding with an object keeps its type and quality and sets every key of the object. */
  lemma ConstructCopyObject(m: MT, obj: map<string, string>)
    ensures var r := Construct(FromMedia(m), ParamObject(obj));
      && r.fullType == m.fullType && r.q == m.q
      && r.params.Keys == m.params.Keys + obj.Keys
      && (forall k :: k in obj ==> r.params[k] == obj[k])
      && (forall k :: k in m.params && k !in obj ==> r.params[k] == m.params[k])
  {
  }

  /** The test `should parse q parameter as Float`: `parseParameter('q=0.5')` sets the number 0.5. */
  lemma ParseQExample()
    ensures ParseParam(Empty, "q=0.5") == MT("", map[], Num(0.5))
  {
    QExample(Empty);
  }

  lemma LevelExample(m: MT)
    ensures ParseParam(m, "level=1") == m.(params := m.params["level" := "1"])
  {
    assert "level" + "=" + "1" == "level=1";
    NamePartAt("level", "1");
    TrimIdentity("level");
    TrimIdentity("1");
  }

  lemma QExample(m: MT)
    ensures ParseParam(m, "q=0.5") == m.(q := Num(0.5))
  {
    var f := "0.5";
    ParseHalf();
    TrimIdentity(f);
    ParseQText(m, f, 0.5);
    assert "q=" + f == "q=0.5";
  }

  lemma ParseHalf()
    ensures ParseFloat("0.5") == Some(0.5)
  {
    var s := "0.5";
    assert SkipSpace(s, 0) == 0;
    DigitsEndRun(s, 0, 1);
    DigitsEndRun(s, 2, 3);
    assert DigitsValue(s, 0, 1) == 0;
    assert FracValue(s, 2, 3) == 0.5;
  }

  lemma ExampleFields(m: MT)
    ensures ApplyFields(m, ["level=1", "q=0.5"]) == MT(m.fullType, m.params["level" := "1"], Num(0.5))
  {
    assert ["level=1", "q=0.5"][..1] == ["level=1"];
    assert ["level=1"][..0] == [];
    LevelExample(m);
    QExample(m.(params := m.params["level" := "1"]));
  }

  /** A header with no quotes: the type, then each trimmed field parsed in turn. */
  lemma ConstructPlain(t: string, fields: seq<string>)
    requires t != [] && IsTrimmed(t) && NoSeparators(t)
    requires forall e :: e in fields ==> e != [] && NoSeparators(e)
    ensures Construct(FromString(t + Prefixed(fields, ';')), NoOverrides) == ApplyFields(MT(t, map[], NoQ), TrimAll(fields))
  {
    SplitPlain(t, fields);
  }

  lemma ExampleText()
    ensures "text/html" + Prefixed(["level=1", "q=0.5"], ';') == "text/html;level=1;q=0.5"
    ensures "text/html" + Prefixed([" level=1", " q=0.5"], ';') == "text/html; level=1; q=0.5"
  {
    PrefixedPair("level=1", "q=0.5", ';');
    PrefixedPair(" level=1", " q=0.5", ';');
    assert "text/html" + ([';'] + "level=1" + [';'] + "q=0.5") == "text/html;level=1;q=0.5";
    assert "text/html" + ([';'] + " level=1" + [';'] + " q=0.5") == "text/html; level=1; q=0.5";
  }

  lemma ExampleTrim()
    ensures TrimAll(["level=1", "q=0.5"]) == ["level=1", "q=0.5"]
  {
    TrimIdentity("level=1");
    TrimIdentity("q=0.5");
  }

  lemma ExampleTrimSpaces()
    ensures TrimAll([" level=1", " q=0.5"]) == ["level=1", "q=0.5"]
  {
    assert " level=1" == " " + "level=1" + "";
    assert " q=0.5" == " " + "q=0.5" + "";
    TrimPadded(" ", "level=1", "");
    TrimPadded(" ", "q=0.5", "");
  }

  /** The test `should parse media type`. */
  lemma ParseExample()
    ensures Construct(FromString("text/html;level=1;q=0.5"), NoOverrides)
         == MT("text/html", map["level" := "1"], Num(0.5))
  {
    ConstructPlain("text/html", ["level=1", "q=0.5"]);
    ExampleText();
    ExampleTrim();
    ExampleFields(MT("text/html", map[], NoQ));
  }

  /** The test `should parse media type with spaces`: the blanks after each `;` are trimmed away. */
  lemma ParseExampleSpaces()
    ensures Construct(FromString("text/html; level=1; q=0.5"), NoOverrides)
         == MT("text/html", map["level" := "1"], Num(0.5))
  {
    ConstructPlain("text/html", [" level=1", " q=0.5"]);
    ExampleText();
    ExampleTrimSpaces();
    ExampleFields(MT("text/html", map[], NoQ));
  }

  lemma SingleKey(params: map<string, string>, k: string)
    requires params.Keys == {k}
    ensures SortedKeys(params.Keys) == [k]
  {
    var r := SortedKeys(params.Keys);
    assert |r| == 1 && k in r;
  }

  lemma SerializeOneToken(t: string, k: string, v: string)
    requires IsToken(v)
    ensures Serialize(MT(t, map[k := v], NoQ)) == t + v
  {
    var params := map[k := v];
    SingleKey(params, k);
    assert ValuesText(params, [k]) == ValuesText(params, []) + RenderValue(v);
  }

  lemma ParseNoParameters(s: string)
    requires ';' !in s
    requires IsTrimmed(s)
    ensures Construct(FromString(s), NoOverrides) == MT(s, map[], NoQ)
  {
    SplitNoDelimiter(s, ';', '"');
    TrimIdentity(s);
    var c := Split(s, ';', '"');
    assert c[1..] == [];
  }

  /**
   * `toString` as written leaves out `;name=`: `text/html;level=1` and
   * `text/html;charset=1` both print as `text/html1`, which parses back as a
   * media type of that name with no parameters.
   */
  lemma SerializeDropsNames()
    ensures Serialize(MT("text/html", map["level" := "1"], NoQ)) == "text/html1"
    ensures Serialize(MT("text/html", map["charset" := "1"], NoQ)) == "text/html1"
    ensures Construct(FromString("text/html1"), NoOverrides) == MT("text/html1", map[], NoQ)
  {
    DropsLevel();
    DropsCharset();
    ParseNoParameters("text/html1");
  }

  lemma DropsLevel()
    ensures Serialize(MT("text/html", map["level" := "1"], NoQ)) == "text/html1"
  {
    assert "text/html" + "1" == "text/html1";
    SerializeOneToken("text/html", "level", "1");
  }

  lemma DropsCharset()
    ensures Serialize(MT("text/html", map["charset" := "1"], NoQ)) == "text/html1"
  {
    assert "text/html" + "1" == "text/html1";
    SerializeOneToken("text/html", "charset", "1");
  }

  /** A media type that `SerializeNamed` writes out in full and that parses back unchanged. */
  predicate Canonical(m: MT) {
    && m.fullType != [] && IsTrimmed(m.fullType) && NoSeparators(m.fullType)
    && (forall n :: n in m.params ==> IsToken(n) && n != "q" && SafeValue(m.params[n]))
    && (m.q.NoQ? || (m.q.Num? && 0.0 <= m.q.value <= 1.0 && IsThousandths(m.q.value)))
  }

  lemma TokenNoEquals(k: string)
    requires IsToken(k)
    ensures forall i :: 0 <= i < |k| ==> k[i] != '='
  {
  }

  lemma RenderValueTrimmed(v: string)
    ensures RenderValue(v) != [] && IsTrimmed(RenderValue(v))
  {
    if IsToken(v) {
      TokenNoSeparators(v);
    }
  }

  /** `parseParameter` reads a `name=value` field written by `SerializeNamed` back as that parameter. */
  lemma ParseParamField(m: MT, k: string, v: string)
    requires IsToken(k) && k != "q"
    ensures ParseParam(m, ParamField(k, v)) == m.(params := m.params[k := v])
  {
    TokenNoEquals(k);
    ParseParamFirstEquals(m, k, RenderValue(v));
    TokenNoSeparators(k);
    TrimIdentity(k);
    RenderValueTrimmed(v);
    TrimIdentity(RenderValue(v));
    UnquoteRenderValue(v);
  }

  lemma {:induction false} ApplyParamFields(t: string, params: map<string, string>, keys: seq<string>)
    requires forall k :: k in keys ==> k in params && IsToken(k) && k != "q"
    ensures ApplyFields(MT(t, map[], NoQ), ParamFields(params, keys))
         == MT(t, map k | k in params && k in keys :: params[k], NoQ)
    decreases |keys|
  {
    if keys != [] {
      var ks := keys[..|keys| - 1];
      var k := keys[|keys| - 1];
      assert keys == ks + [k];
      ParamFieldsSnoc(params, ks, k);
      var pf := ParamFields(params, keys);
      assert pf[..|pf| - 1] == ParamFields(params, ks);
      ApplyParamFields(t, params, ks);
      ParseParamField(MT(t, map k | k in params && k in ks :: params[k], NoQ), k, params[k]);
      RestrictSnoc(params, ks, k);
    }
  }

  lemma RestrictSnoc(params: map<string, string>, ks: seq<string>, k: string)
    requires k in params
    ensures (map j | j in params && j in ks :: params[j])[k := params[k]] == map j | j in params && j in ks + [k] :: params[j]
  {
    var a := (map j | j in params && j in ks :: params[j])[k := params[k]];
    var b := map j | j in params && j in ks + [k] :: params[j];
    assert forall j :: j in ks + [k] <==> j in ks || j == k;
    assert a.Keys == b.Keys;
  }

  /** `parseParameter` reads the `q=` field written for a thousandths value in [0, 1] back as that number. */
  lemma ParseQField(m: MT, x: real)
    requires 0.0 <= x <= 1.0 && IsThousandths(x)
    ensures ParseParam(m, "q=" + FormatQ(x)) == m.(q := Num(x))
  {
    var f := FormatQ(x);
    FormatQDigits(x);
    FormatQRoundTrip(x);
    ParseQText(m, f, x);
  }

  lemma ParseQText(m: MT, f: string, x: real)
    requires f != [] && IsTrimmed(f) && ParseFloat(f) == Some(x)
    ensures ParseParam(m, "q=" + f) == m.(q := Num(x))
  {
    assert "q=" + f == "q" + "=" + f;
    ParseParamFirstEquals(m, "q", f);
    TrimIdentity("q");
    TrimIdentity(f);
    AssignQ(m, f, x);
  }

  lemma AssignQ(m: MT, f: string, x: real)
    requires f != [] && ParseFloat(f) == Some(x)
    ensures Assign(m, "q", f) == m.(q := Num(x))
  {
  }

  /** The `q` field `SerializeNamed` appends, as a list of zero or one fields. */
  function QFields(q: Quality): (r: seq<string>) {
    if q.Num? && q.value >= 0.0 then ["q=" + FormatQ(q.value)] else []
  }

  lemma QFieldsText(q: Quality)
    ensures QText(q) == Prefixed(QFields(q), ';')
    ensures forall e :: e in QFields(q) ==> e != [] && NoSeparators(e) && IsTrimmed(e)
  {
    if q.Num? && q.value >= 0.0 {
      FormatQDigits(q.value);
      var e := "q=" + FormatQ(q.value);
      assert Prefixed([e], ';') == [';'] + e + Prefixed([], ';');
    }
  }

  lemma SerializeNamedText(m: MT)
    ensures SerializeNamed(m) == m.fullType + Prefixed(ParamFields(m.params, SortedKeys(m.params.Keys)) + QFields(m.q), ';')
  {
    var pf := ParamFields(m.params, SortedKeys(m.params.Keys));
    var ex := QFields(m.q);
    QFieldsText(m.q);
    PrefixedAppend(pf, ex, ';');
    AppendAssoc(m.fullType, Prefixed(pf, ';'), Prefixed(ex, ';'));
  }

  /** Splitting what `SerializeNamed` writes gives back the type, each parameter field and the `q` field. */
  lemma SplitSerializedNamed(m: MT)
    requires Canonical(m)
    ensures var keys := SortedKeys(m.params.Keys);
      Split(SerializeNamed(m), ';', '"') == [m.fullType] + ParamFields(m.params, keys) + QFields(m.q)
  {
    var keys := SortedKeys(m.params.Keys);
    var ex := QFields(m.q);
    QFieldsText(m.q);
    SerializeNamedText(m);
    SplitSerialized(m.fullType, m.params, keys, ex);
    TrimAllTrimmed(ex);
  }

  lemma TailOfCons(t: string, a: seq<string>, b: seq<string>)
    ensures ([t] + a + b)[0] == t && ([t] + a + b)[1..] == a + b
  {
  }

  lemma RestrictAll(params: map<string, string>, keys: seq<string>)
    requires forall k :: k in params <==> k in keys
    ensures (map k | k in params && k in keys :: params[k]) == params
  {
  }

  /**
   * With names written, `toString` and the parser are inverses: parsing what
   * `SerializeNamed` writes for a canonical media type gives it back.
   */
  lemma SerializeNamedRoundTrip(m: MT)
    requires Canonical(m)
    ensures Construct(FromString(SerializeNamed(m)), NoOverrides) == m
  {
    var keys := SortedKeys(m.params.Keys);
    var pf := ParamFields(m.params, keys);
    var ex := QFields(m.q);
    var m0 := MT(m.fullType, map[], NoQ);
    SplitSerializedNamed(m);
    var c := Split(SerializeNamed(m), ';', '"');
    TailOfCons(m.fullType, pf, ex);
    assert Construct(FromString(SerializeNamed(m)), NoOverrides) == ApplyFields(m0, pf + ex);
    ApplyFieldsAppend(m0, pf, ex);
    ApplyParamFields(m.fullType, m.params, keys);
    var m1 := MT(m.fullType, map k | k in m.params && k in keys :: m.params[k], NoQ);
    RestrictAll(m.params, keys);
    if m.q.Num? {
      assert ex == ["q=" + FormatQ(m.q.value)];
      assert ApplyFields(m1, ex) == ParseParam(ApplyFields(m1, []), ex[0]);
      ParseQField(m1, m.q.value);
    } else {
      assert ex == [];
    }
  }

  /**
   * A quality `toString` does not write (NaN, or a negative number) is lost:
   * the text reads back with no quality at all.
   */
  lemma UnwrittenQualityLost(m: MT)
    requires Canonical(m.(q := NoQ)) && (m.q.NaN? || (m.q.Num? && m.q.value < 0.0))
    ensures Construct(FromString(SerializeNamed(m)), NoOverrides) == m.(q := NoQ) != m
  {
    assert SerializeNamed(m) == SerializeNamed(m.(q := NoQ));
    SerializeNamedRoundTrip(m.(q := NoQ));
  }
}
