/**
 * The shape of a serialized media type, `type;name=value;...`, shared by the
 * two variants of the library, and the proof that splitting such a string on
 * `;` gives its fields back one by one.
 */
module Header {
  import opened Wrappers
  import opened Text
  import opened Splitter
  import opened Seqs

  /** `name=value`, the value bare when it is a token and quoted otherwise. */
  function ParamField(n: string, v: string): (r: string) {
    n + "=" + RenderValue(v)
  }

  /** The `name=value` fields of the listed keys, in the order of the list. */
  function ParamFields(params: map<string, string>, keys: seq<string>): (r: seq<string>)
    requires forall k :: k in keys ==> k in params
    ensures |r| == |keys|
    ensures forall i :: 0 <= i < |keys| ==> r[i] == ParamField(keys[i], params[keys[i]])
  {
    seq(|keys|, i requires 0 <= i < |keys| => ParamField(keys[i], params[keys[i]]))
  }

  lemma ParamFieldsSnoc(params: map<string, string>, keys: seq<string>, k: string)
    requires forall j :: j in keys ==> j in params
    requires k in params
    ensures ParamFields(params, keys + [k]) == ParamFields(params, keys) + [ParamField(k, params[k])]
  {
  }

  /** Text that the splitter passes over unchanged: no `;` and no `"`. */
  predicate NoSeparators(t: string) {
    forall k :: 0 <= k < |t| ==> t[k] != ';' && t[k] != '"'
  }

  /**
   * A value that survives the quoted form: the splitter takes a `"` after a
   * backslash as escaped, so a quoted value must not end with a backslash.
   */
  predicate SafeValue(v: string) {
    v == [] || v[|v| - 1] != '\\'
  }

  /** The parameters the listed keys name are all writable and read back as themselves. */
  predicate SafeParams(params: map<string, string>, keys: seq<string>) {
    forall k :: k in keys ==> k in params && IsToken(k) && SafeValue(params[k])
  }

  /** A parameter field cut into the parts the splitter sees. */
  function FieldParts(n: string, v: string): (r: seq<Part>) {
    if IsToken(v) then [Plain(n + "=" + v)] else [Plain(n + "="), Quoted(Escape(v))]
  }

  lemma TokenNoSeparators(t: string)
    requires IsToken(t)
    ensures NoSeparators(t) && IsTrimmed(t)
  {
  }

  lemma FieldPartsClean(n: string, v: string, last: bool)
    requires IsToken(n) && SafeValue(v)
    ensures CleanField(FieldParts(n, v), ';', '"', last)
    ensures RenderParts(FieldParts(n, v), '"') == ParamField(n, v)
    ensures IsTrimmed(ParamField(n, v))
  {
    TokenNoSeparators(n);
    if IsToken(v) {
      TokenNoSeparators(v);
      assert RenderParts(FieldParts(n, v), '"') == n + "=" + v;
    } else {
      var b := Escape(v);
      EscapedQuotes(v);
      if v != [] {
        EscapeLast(v);
      }
      assert EscapedBody(b, '"');
      var ps := FieldParts(n, v);
      assert ps[1..][1..] == [];
      assert CleanParts(ps[1..], ';', '"', last);
      assert RenderParts(ps[1..], '"') == "\"" + b + "\"" + RenderParts([], '"');
      assert RenderParts(ps, '"') == n + "=" + ("\"" + b + "\"");
    }
  }

  /** The parts of a whole header: the type, the parameters, then the extra fields. */
  function HeaderParts(t: string, params: map<string, string>, keys: seq<string>, extras: seq<string>): (r: seq<seq<Part>>)
    requires forall k :: k in keys ==> k in params
    ensures |r| == 1 + |keys| + |extras|
  {
    [[Plain(t)]]
    + seq(|keys|, i requires 0 <= i < |keys| => FieldParts(keys[i], params[keys[i]]))
    + seq(|extras|, i requires 0 <= i < |extras| => [Plain(extras[i])])
  }

  lemma HeaderPartsRender(t: string, params: map<string, string>, keys: seq<string>, extras: seq<string>)
    requires SafeParams(params, keys)
    ensures RenderEach(HeaderParts(t, params, keys, extras), '"') == [t] + ParamFields(params, keys) + extras
  {
    var fs := HeaderParts(t, params, keys, extras);
    var want := [t] + ParamFields(params, keys) + extras;
    forall i | 0 <= i < |fs| ensures RenderParts(fs[i], '"') == want[i] {
      if 1 <= i < 1 + |keys| {
        FieldPartsClean(keys[i - 1], params[keys[i - 1]], false);
      }
    }
  }

  /** A field of one plain part without separators is clean, wherever it stands. */
  lemma PlainFieldClean(t: string, last: bool)
    requires t != [] && NoSeparators(t)
    ensures CleanField([Plain(t)], ';', '"', last)
  {
    assert [Plain(t)][1..] == [];
  }

  lemma HeaderPartsClean(t: string, params: map<string, string>, keys: seq<string>, extras: seq<string>)
    requires t != [] && NoSeparators(t)
    requires SafeParams(params, keys)
    requires forall e :: e in extras ==> e != [] && NoSeparators(e)
    ensures CleanFields(HeaderParts(t, params, keys, extras), ';', '"')
  {
    var fs := HeaderParts(t, params, keys, extras);
    forall i | 0 <= i < |fs| ensures CleanField(fs[i], ';', '"', i == |fs| - 1) {
      if i == 0 {
        PlainFieldClean(t, i == |fs| - 1);
      } else if i < 1 + |keys| {
        FieldPartsClean(keys[i - 1], params[keys[i - 1]], i == |fs| - 1);
      } else {
        var e := extras[i - 1 - |keys|];
        assert e in extras;
        PlainFieldClean(e, i == |fs| - 1);
      }
    }
  }

  lemma HeaderRendered(t: string, params: map<string, string>, keys: seq<string>, extras: seq<string>)
    requires SafeParams(params, keys)
    ensures RenderFields(HeaderParts(t, params, keys, extras), ';', '"')
         == t + Prefixed(ParamFields(params, keys) + extras, ';')
  {
    HeaderPartsRender(t, params, keys, extras);
    var pf := ParamFields(params, keys);
    assert [t] + pf + extras == [t] + (pf + extras);
    RenderFieldsOf(HeaderParts(t, params, keys, extras), ';', '"', t, ParamFields(params, keys) + extras);
  }

  lemma HeaderTrimmed(t: string, params: map<string, string>, keys: seq<string>, extras: seq<string>)
    requires IsTrimmed(t)
    requires SafeParams(params, keys)
    ensures TrimAll([t] + ParamFields(params, keys) + extras) == [t] + ParamFields(params, keys) + TrimAll(extras)
  {
    var a := [t] + ParamFields(params, keys);
    forall i | 0 <= i < |a| ensures IsTrimmed(a[i]) {
      if i > 0 {
        FieldPartsClean(keys[i - 1], params[keys[i - 1]], false);
      }
    }
    TrimAllTrimmedPrefix(a, extras);
  }

  /**
   * Splitting `type;name=value;...;extra` on `;` with `"` as the quote gives
   * the type, each `name=value` field and each trimmed extra field: values
   * holding `;` or `"` are quoted and come back whole.
   */
  lemma SplitSerialized(t: string, params: map<string, string>, keys: seq<string>, extras: seq<string>)
    requires t != [] && IsTrimmed(t) && NoSeparators(t)
    requires SafeParams(params, keys)
    requires forall e :: e in extras ==> e != [] && NoSeparators(e)
    ensures Split(t + Prefixed(ParamFields(params, keys) + extras, ';'), ';', '"')
         == [t] + ParamFields(params, keys) + TrimAll(extras)
  {
    var fs := HeaderParts(t, params, keys, extras);
    HeaderPartsClean(t, params, keys, extras);
    HeaderRendered(t, params, keys, extras);
    SplitFields(fs, ';', '"');
    HeaderPartsRender(t, params, keys, extras);
    HeaderTrimmed(t, params, keys, extras);
  }

  /** A header without quotes splits at every `;`, each field trimmed. */
  lemma SplitPlain(t: string, fields: seq<string>)
    requires t != [] && IsTrimmed(t) && NoSeparators(t)
    requires forall e :: e in fields ==> e != [] && NoSeparators(e)
    ensures Split(t + Prefixed(fields, ';'), ';', '"') == [t] + TrimAll(fields)
  {
    SplitNoKeys(t, map[], [], fields);
  }

  lemma SplitNoKeys(t: string, params: map<string, string>, keys: seq<string>, fields: seq<string>)
    requires t != [] && IsTrimmed(t) && NoSeparators(t)
    requires forall e :: e in fields ==> e != [] && NoSeparators(e)
    requires keys == []
    ensures Split(t + Prefixed(fields, ';'), ';', '"') == [t] + TrimAll(fields)
  {
    var pf := ParamFields(params, keys);
    SplitSerialized(t, params, keys, fields);
    EmptyMiddle([], pf, fields);
    EmptyMiddle([t], pf, TrimAll(fields));
  }


  /** `t.split("/")[0]`: the text before the first `/`, or all of it. */
  function MainType(t: string): (r: string)
    ensures r <= t
    ensures forall k :: 0 <= k < |r| ==> r[k] != '/'
    ensures |r| < |t| ==> t[|r|] == '/'
  {
    match IndexOf(t, '/', 0)
    case None => t
    case Some(i) => t[..i]
  }

  /** `t.split("/")[1]`: the text between the first and the second `/`, or `undefined` when there is no `/`. */
  function SubType(t: string): (r: Option<string>) {
    match IndexOf(t, '/', 0)
    case None => None
    case Some(i) =>
      match IndexOf(t, '/', i + 1)
      case None => Some(t[i + 1..])
      case Some(j) => Some(t[i + 1..j])
  }
}
