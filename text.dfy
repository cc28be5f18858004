/**
 * String helpers that both variants of the library lean on: the JavaScript
 * built-ins `String.prototype.trim` and `indexOf`, the RFC 7230 token test,
 * and the backslash quoting applied by `toString` and undone by the parser.
 */
module Text {
  import opened Wrappers

  /** The whitespace `trim` removes, restricted to ASCII: space, tab, LF, VT, FF and CR. */
  predicate IsSpace(c: char) {
    c == ' ' || '\t' <= c <= '\r'
  }

  /** No leading and no trailing whitespace. */
  predicate IsTrimmed(s: string) {
    s == [] || (!IsSpace(s[0]) && !IsSpace(s[|s| - 1]))
  }

  predicate AllSpace(s: string) {
    forall i :: 0 <= i < |s| ==> IsSpace(s[i])
  }

  /** The first position at or after `i` that does not hold whitespace, or `|s|`. */
  function SkipSpace(s: string, i: nat): (j: nat)
    requires i <= |s|
    ensures i <= j <= |s|
    ensures j < |s| ==> !IsSpace(s[j])
    decreases |s| - i
  {
    if i < |s| && IsSpace(s[i]) then SkipSpace(s, i + 1) else i
  }

  /** The end of `s[..j]` once its trailing whitespace is dropped. */
  function BackSpace(s: string, j: nat): (k: nat)
    requires j <= |s|
    ensures k <= j
    ensures k > 0 ==> !IsSpace(s[k - 1])
  {
    if j > 0 && IsSpace(s[j - 1]) then BackSpace(s, j - 1) else j
  }

  /** Whitespace runs from `i` up to `SkipSpace(s, i)`. */
  lemma {:induction false} SkipSpaceSpan(s: string, i: nat)
    requires i <= |s|
    ensures forall k :: i <= k < SkipSpace(s, i) ==> IsSpace(s[k])
    decreases |s| - i
  {
    if i < |s| && IsSpace(s[i]) {
      SkipSpaceSpan(s, i + 1);
    }
  }

  /** Whitespace runs from `BackSpace(s, j)` up to `j`. */
  lemma {:induction false} BackSpaceSpan(s: string, j: nat)
    requires j <= |s|
    ensures forall k :: BackSpace(s, j) <= k < j ==> IsSpace(s[k])
  {
    if j > 0 && IsSpace(s[j - 1]) {
      BackSpaceSpan(s, j - 1);
    }
  }

  /** A run of whitespace from `i` that stops at `j` is skipped up to `j`. */
  lemma {:induction false} SkipSpaceRun(s: string, i: nat, j: nat)
    requires i <= j <= |s| && (j == |s| || !IsSpace(s[j]))
    requires forall k :: i <= k < j ==> IsSpace(s[k])
    ensures SkipSpace(s, i) == j
    decreases j - i
  {
    if i < j {
      SkipSpaceRun(s, i + 1, j);
    }
  }

  /** A run of whitespace that ends at `j` and starts after a non-space at `i - 1` is dropped down to `i`. */
  lemma {:induction false} BackSpaceRun(s: string, i: nat, j: nat)
    requires i <= j <= |s| && (i == 0 || !IsSpace(s[i - 1]))
    requires forall k :: i <= k < j ==> IsSpace(s[k])
    ensures BackSpace(s, j) == i
    decreases j - i
  {
    if i < j {
      BackSpaceRun(s, i, j - 1);
    }
  }

  /** `s` without its leading whitespace. */
  function TrimStart(s: string): (r: string)
  {
    s[SkipSpace(s, 0)..]
  }

  /** `String.prototype.trim`: the text between the leading and the trailing whitespace. */
  function Trim(s: string): (r: string)
    ensures IsTrimmed(r)
    ensures |r| <= |s|
  {
    var i := SkipSpace(s, 0);
    var j := BackSpace(s, |s|);
    if i < j then s[i..j] else []
  }

  /** What `trim` removes is whitespace, before and after the text it keeps. */
  lemma TrimSlice(s: string)
    ensures var r := Trim(s);
      exists i :: 0 <= i <= |s| - |r| && r == s[i..i + |r|] && AllSpace(s[..i]) && AllSpace(s[i + |r|..])
  {
    var i := SkipSpace(s, 0);
    var j := BackSpace(s, |s|);
    SkipSpaceSpan(s, 0);
    BackSpaceSpan(s, |s|);
    var r := Trim(s);
    if i < j {
      assert r == s[i..j];
      assert AllSpace(s[..i]) && AllSpace(s[j..]);
      assert 0 <= i <= |s| - |r| && r == s[i..i + |r|] && AllSpace(s[..i]) && AllSpace(s[i + |r|..]);
    } else {
      assert forall k :: 0 <= k < |s| ==> IsSpace(s[k]);
      assert AllSpace(s[..0]) && AllSpace(s[0..]);
      assert 0 <= 0 <= |s| - |r| && r == s[0..0 + |r|] && AllSpace(s[..0]) && AllSpace(s[0 + |r|..]);
    }
  }

  lemma TrimIdentity(s: string)
    requires IsTrimmed(s)
    ensures Trim(s) == s
  {
    if s != [] {
      assert SkipSpace(s, 0) == 0;
      assert BackSpace(s, |s|) == |s|;
      assert s[0..|s|] == s;
    }
  }

  /** Trimming a string that is its trimmed core with whitespace around it gives the core back. */
  lemma TrimPadded(lead: string, core: string, trail: string)
    requires AllSpace(lead) && AllSpace(trail) && IsTrimmed(core) && core != []
    ensures Trim(lead + core + trail) == core
  {
    var s := lead + core + trail;
    var i := |lead|;
    var j := |lead| + |core|;
    assert forall k :: 0 <= k < i ==> s[k] == lead[k];
    assert forall k :: j <= k < |s| ==> s[k] == trail[k - j];
    assert s[i] == core[0] && s[j - 1] == core[|core| - 1];
    SkipSpaceRun(s, 0, i);
    BackSpaceRun(s, j, |s|);
    assert s[i..j] == core;
  }

  /** `String.prototype.indexOf` for one character: the first position at or after `from` holding `c`. */
  function IndexOf(s: string, c: char, from: nat): (r: Option<nat>)
    ensures r.Some? ==> from <= r.value < |s| && s[r.value] == c
    ensures r.Some? ==> forall k :: from <= k < r.value ==> s[k] != c
    ensures r.None? ==> forall k :: from <= k < |s| ==> s[k] != c
    decreases |s| - from
  {
    if from >= |s| then None
    else if s[from] == c then Some(from)
    else IndexOf(s, c, from + 1)
  }

  /** A character of the `tchar` rule of section 3.2.6 of RFC 7230, the class `[!#$%&'*+\-.^_`|~0-9a-zA-Z]`. */
  predicate IsTchar(c: char) {
    || c == '!' || c == '#' || c == '$' || c == '%' || c == '&' || c == '\'' || c == '*'
    || c == '+' || c == '-' || c == '.' || c == '^' || c == '_' || c == '`' || c == '|' || c == '~'
    || '0' <= c <= '9' || 'a' <= c <= 'z' || 'A' <= c <= 'Z'
  }

  /** A `token`: one or more tchars. A value that is a token is written without quotes. */
  predicate IsToken(s: string) {
    s != [] && forall i :: 0 <= i < |s| ==> IsTchar(s[i])
  }

  /** `replace(/["\\]/g, ...)`: a backslash is put before every `"` and every `\`. */
  function Escape(s: string): (r: string)
    ensures |r| >= |s|
  {
    if s == [] then []
    else (if s[0] == '"' || s[0] == '\\' then ['\\', s[0]] else [s[0]]) + Escape(s[1..])
  }

  /** The characters that the regular expression `.` does not match. */
  predicate IsLineTerminator(c: char) {
    c == '\n' || c == '\r' || c == '\U{2028}' || c == '\U{2029}'
  }

  /** `replace(/\\(.)/g, b)`: scanning left to right, a backslash and the character after it become that character. */
  function Unescape(s: string): (r: string) {
    if s == [] then []
    else if s[0] == '\\' && |s| >= 2 && !IsLineTerminator(s[1]) then [s[1]] + Unescape(s[2..])
    else [s[0]] + Unescape(s[1..])
  }

  /**
   * A value that starts and ends with `"` loses that pair and is unescaped;
   * any other value is kept. A lone `"` gives the empty string, as `substr(1, -1)` does.
   */
  function Unquote(v: string): (r: string)
    ensures (v == [] || v[0] != '"' || v[|v| - 1] != '"') ==> r == v
  {
    if |v| >= 1 && v[0] == '"' && v[|v| - 1] == '"' then
      Unescape(if |v| >= 2 then v[1..|v| - 1] else [])
    else v
  }

  /** How `toString` writes a parameter value: bare when it is a token, otherwise quoted and escaped. */
  function RenderValue(v: string): (r: string)
    ensures IsToken(v) ==> r == v
    ensures !IsToken(v) ==> |r| >= 2 && r[0] == '"' && r[|r| - 1] == '"'
  {
    if IsToken(v) then v else "\"" + Escape(v) + "\""
  }

  lemma {:induction false} UnescapeEscape(v: string)
    ensures Unescape(Escape(v)) == v
    decreases |v|
  {
    if v != [] {
      UnescapeEscape(v[1..]);
      if v[0] == '"' || v[0] == '\\' {
        assert Escape(v) == ['\\', v[0]] + Escape(v[1..]);
        assert (['\\', v[0]] + Escape(v[1..]))[2..] == Escape(v[1..]);
      } else {
        assert Escape(v) == [v[0]] + Escape(v[1..]);
        assert ([v[0]] + Escape(v[1..]))[1..] == Escape(v[1..]);
      }
    }
  }

  /** Quoting followed by unquoting is the identity: the parser reads back every value `toString` writes. */
  lemma UnquoteRenderValue(v: string)
    ensures Unquote(RenderValue(v)) == v
    ensures Unquote("\"" + Escape(v) + "\"") == v
  {
    var w := "\"" + Escape(v) + "\"";
    assert |w| >= 2 && w[0] == '"' && w[|w| - 1] == '"';
    assert w[1..|w| - 1] == Escape(v);
    UnescapeEscape(v);
    assert Unquote(w) == v;
    if IsToken(v) {
      assert IsTchar(v[0]);
      assert RenderValue(v) == v;
    } else {
      assert RenderValue(v) == w;
    }
  }

  /** Every `"` that `Escape` writes has a backslash right before it. */
  lemma {:induction false} EscapedQuotes(v: string)
    ensures forall k :: 0 <= k < |Escape(v)| && Escape(v)[k] == '"' ==> k > 0 && Escape(v)[k - 1] == '\\'
    decreases |v|
  {
    if v != [] {
      EscapedQuotes(v[1..]);
      var head := if v[0] == '"' || v[0] == '\\' then ['\\', v[0]] else [v[0]];
      assert Escape(v) == head + Escape(v[1..]);
      forall k | 0 <= k < |Escape(v)| && Escape(v)[k] == '"'
        ensures k > 0 && Escape(v)[k - 1] == '\\'
      {
        if k >= |head| {
          assert Escape(v)[k] == Escape(v[1..])[k - |head|];
          if k - |head| > 0 {
            assert Escape(v)[k - 1] == Escape(v[1..])[k - |head| - 1];
          }
        }
      }
    }
  }

  /** `Escape(v)` ends with a backslash only when `v` does. */
  lemma {:induction false} EscapeLast(v: string)
    requires v != [] && v[|v| - 1] != '\\'
    ensures Escape(v) != [] && Escape(v)[|Escape(v)| - 1] != '\\'
    decreases |v|
  {
    if |v| > 1 {
      EscapeLast(v[1..]);
    }
  }

  /** The order `Array.prototype.sort` gives strings by default: character by character, a prefix first. */
  predicate LexLe(a: string, b: string) {
    a == [] || (b != [] && (a[0] < b[0] || (a[0] == b[0] && LexLe(a[1..], b[1..]))))
  }

  lemma {:induction false} LexLeTotal(a: string, b: string)
    ensures LexLe(a, b) || LexLe(b, a)
    decreases |a|
  {
    if a != [] && b != [] && a[0] == b[0] {
      LexLeTotal(a[1..], b[1..]);
    }
  }

  lemma {:induction false} LexLeAntisymmetric(a: string, b: string)
    requires LexLe(a, b) && LexLe(b, a)
    ensures a == b
    decreases |a|
  {
    if a != [] {
      LexLeAntisymmetric(a[1..], b[1..]);
      assert a == [a[0]] + a[1..] && b == [b[0]] + b[1..];
    }
  }

  lemma {:induction false} LexLeTransitive(a: string, b: string, c: string)
    requires LexLe(a, b) && LexLe(b, c)
    ensures LexLe(a, c)
    decreases |a|
  {
    if a != [] && b != [] && c != [] && a[0] == b[0] && b[0] == c[0] {
      LexLeTransitive(a[1..], b[1..], c[1..]);
    }
  }

  predicate IsLeast(k: string, keys: set<string>) {
    k in keys && forall j :: j in keys ==> LexLe(k, j)
  }

  lemma {:induction false} LeastExists(keys: set<string>)
    requires keys != {}
    ensures exists k :: IsLeast(k, keys)
    decreases |keys|
  {
    var x :| x in keys;
    if keys == {x} {
      LexLeReflexive(x);
      assert IsLeast(x, keys);
    } else {
      LeastExists(keys - {x});
      var m :| IsLeast(m, keys - {x});
      LexLeTotal(m, x);
      if LexLe(m, x) {
        assert IsLeast(m, keys);
      } else {
        forall j | j in keys ensures LexLe(x, j) {
          if j == x {
            LexLeReflexive(x);
          } else {
            LexLeTransitive(x, m, j);
          }
        }
        assert IsLeast(x, keys);
      }
    }
  }

  lemma {:induction false} LexLeReflexive(a: string)
    ensures LexLe(a, a)
    decreases |a|
  {
    if a != [] {
      LexLeReflexive(a[1..]);
    }
  }

  lemma SortedCons(k: string, keys: set<string>, rest: seq<string>)
    requires IsLeast(k, keys)
    requires |rest| == |keys - {k}|
    requires forall j :: j in keys - {k} <==> j in rest
    requires forall i, j :: 0 <= i < j < |rest| ==> LexLe(rest[i], rest[j]) && rest[i] != rest[j]
    ensures |[k] + rest| == |keys|
    ensures forall j :: j in keys <==> j in [k] + rest
    ensures forall i, j :: 0 <= i < j < |[k] + rest| ==> LexLe(([k] + rest)[i], ([k] + rest)[j]) && ([k] + rest)[i] != ([k] + rest)[j]
  {
    var r := [k] + rest;
    forall i, j | 0 <= i < j < |r| ensures LexLe(r[i], r[j]) && r[i] != r[j] {
      if i == 0 {
        assert r[j] == rest[j - 1] && r[j] in rest;
      } else {
        assert r[i] == rest[i - 1] && r[j] == rest[j - 1];
      }
    }
  }

  /** `Object.keys(params).sort()`: every key once, in ascending order. */
  function SortedKeys(keys: set<string>): (r: seq<string>)
    ensures |r| == |keys|
    ensures forall k :: k in keys <==> k in r
    ensures forall i, j :: 0 <= i < j < |r| ==> LexLe(r[i], r[j]) && r[i] != r[j]
    decreases |keys|
  {
    if keys == {} then []
    else
      LeastExists(keys);
      assert forall k, k' :: IsLeast(k, keys) && IsLeast(k', keys) ==> k == k' by {
        forall k, k' | IsLeast(k, keys) && IsLeast(k', keys) ensures k == k' {
          LexLeAntisymmetric(k, k');
        }
      }
      var k :| IsLeast(k, keys);
      var rest := SortedKeys(keys - {k});
      SortedCons(k, keys, rest);
      [k] + rest
  }
}
