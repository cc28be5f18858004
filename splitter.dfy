/**
 * `splitQuotedString` and `splitContentTypes`, which are written identically in
 * content-type.js and contenttype.js: split a header value on a delimiter
 * character, except inside `"` spans, where a `\`-escaped quote does not end
 * the span. The search for the next delimiter or quote always starts one past
 * the current offset, so the first character of the input and the first
 * character after each delimiter are never looked at.
 */
module Splitter {
  import opened Wrappers
  import opened Text

  /** Position `k` holds the delimiter or the quote. */
  predicate IsStop(s: string, d: char, q: char, k: nat)
    requires k < |s|
  {
    s[k] == d || s[k] == q
  }

  /** The first delimiter or quote at or after `from`. */
  function NextStop(s: string, d: char, q: char, from: nat): (r: Option<nat>)
    ensures r.Some? ==> from <= r.value < |s| && IsStop(s, d, q, r.value)
    decreases |s| - from
  {
    if from >= |s| then None
    else if IsStop(s, d, q, from) then Some(from)
    else NextStop(s, d, q, from + 1)
  }

  /** No stop lies between `from` and the one found; none at all when none is found. */
  lemma {:induction false} NextStopFirst(s: string, d: char, q: char, from: nat)
    ensures var r := NextStop(s, d, q, from);
      && (r.Some? ==> forall k :: from <= k < r.value ==> !IsStop(s, d, q, k))
      && (r.None? ==> forall k :: from <= k < |s| ==> !IsStop(s, d, q, k))
    decreases |s| - from
  {
    if from < |s| && !IsStop(s, d, q, from) {
      NextStopFirst(s, d, q, from + 1);
    }
  }

  /** `Math.min` over the positions found, the absent ones standing for `Infinity`. */
  function Earlier(a: Option<nat>, b: Option<nat>): (r: Option<nat>) {
    if a.None? then b
    else if b.None? then a
    else Some(if a.value < b.value then a.value else b.value)
  }

  /**
   * The `[delim, quote].reduce(findNextChar, 1 / 0)` step, two `indexOf` calls
   * and the smaller hit, finds exactly the next stop.
   */
  lemma {:induction false} NextStopIndexOf(s: string, d: char, q: char, from: nat)
    ensures Earlier(IndexOf(s, d, from), IndexOf(s, q, from)) == NextStop(s, d, q, from)
  {
    var a, b := IndexOf(s, d, from), IndexOf(s, q, from);
    var e := Earlier(a, b);
    if e.Some? {
      assert IsStop(s, d, q, e.value);
      forall k | from <= k < e.value ensures !IsStop(s, d, q, k) {
      }
      NextStopAt(s, d, q, from, e.value);
    } else {
      forall k | from <= k < |s| ensures !IsStop(s, d, q, k) {
      }
      NextStopNoneAt(s, d, q, from);
    }
  }

  lemma {:induction false} NextStopAt(s: string, d: char, q: char, from: nat, p: nat)
    requires from <= p < |s| && IsStop(s, d, q, p)
    requires forall k :: from <= k < p ==> !IsStop(s, d, q, k)
    ensures NextStop(s, d, q, from) == Some(p)
    decreases p - from
  {
    if from < p {
      NextStopAt(s, d, q, from + 1, p);
    }
  }

  lemma {:induction false} NextStopNoneAt(s: string, d: char, q: char, from: nat)
    requires forall k :: from <= k < |s| ==> !IsStop(s, d, q, k)
    ensures NextStop(s, d, q, from) == None
    decreases |s| - from
  {
    if from < |s| {
      NextStopNoneAt(s, d, q, from + 1);
    }
  }

  /** Position `k` holds a quote that is not preceded by a backslash. */
  predicate Closes(s: string, q: char, k: nat)
    requires 1 <= k < |s|
  {
    s[k] == q && s[k - 1] != '\\'
  }

  /**
   * The quote that closes a span, searching from `from`: the first quote whose
   * preceding character is not a backslash, or None when the span is unclosed.
   */
  function CloseQuote(s: string, q: char, from: nat): (r: Option<nat>)
    requires from >= 1
    ensures r.Some? ==> from <= r.value < |s| && Closes(s, q, r.value)
    decreases |s| - from
  {
    if from >= |s| then None
    else if Closes(s, q, from) then Some(from)
    else CloseQuote(s, q, from + 1)
  }

  /** No closing quote lies between `from` and the one found; none at all when none is found. */
  lemma {:induction false} CloseQuoteFirst(s: string, q: char, from: nat)
    requires from >= 1
    ensures var r := CloseQuote(s, q, from);
      && (r.Some? ==> forall k :: from <= k < r.value ==> !Closes(s, q, k))
      && (r.None? ==> forall k :: from <= k < |s| ==> !Closes(s, q, k))
    decreases |s| - from
  {
    if from < |s| && !Closes(s, q, from) {
      CloseQuoteFirst(s, q, from + 1);
    }
  }

  /**
   * The untrimmed fields of `s` from the field that begins at `start`, the scan
   * standing at `offset`.
   */
  function Pieces(s: string, d: char, q: char, start: nat, offset: nat): (r: seq<string>)
    requires start <= offset <= |s|
    ensures |r| >= 1
    decreases |s| - offset
  {
    match NextStop(s, d, q, offset + 1)
    case None => [s[start..]]
    case Some(p) =>
      if s[p] == q then
        match CloseQuote(s, q, p + 1)
        case None => [s[start..]]
        case Some(c) => Pieces(s, d, q, start, c)
      else
        [s[start..p]] + Pieces(s, d, q, p + 1, p + 1)
  }

  function TrimAll(ps: seq<string>): (r: seq<string>)
    ensures |r| == |ps|
    ensures forall i :: 0 <= i < |ps| ==> r[i] == Trim(ps[i])
  {
    if ps == [] then [] else [Trim(ps[0])] + TrimAll(ps[1..])
  }

  /** The result of `splitQuotedString(s, d, q)`: never empty, every field trimmed. */
  function Split(s: string, d: char, q: char): (r: seq<string>)
    ensures |r| >= 1
    ensures forall i :: 0 <= i < |r| ==> IsTrimmed(r[i])
  {
    TrimAll(Pieces(s, d, q, 0, 0))
  }

  lemma {:induction false} TrimAllAppend(a: seq<string>, b: seq<string>)
    ensures TrimAll(a + b) == TrimAll(a) + TrimAll(b)
  {
    if a == [] {
      assert a + b == b;
    } else {
      assert (a + b)[0] == a[0];
      assert (a + b)[1..] == a[1..] + b;
      TrimAllAppend(a[1..], b);
    }
  }

  /** One step of the scan when no delimiter or quote is left. */
  lemma {:induction false} PiecesAtEnd(s: string, d: char, q: char, start: nat, offset: nat)
    requires start <= offset <= |s| && NextStop(s, d, q, offset + 1).None?
    ensures Pieces(s, d, q, start, offset) == [s[start..]]
  {
  }

  /** One step of the scan at an opening quote at `p`. */
  lemma {:induction false} PiecesQuote(s: string, d: char, q: char, start: nat, offset: nat, p: nat)
    requires start <= offset <= |s| && NextStop(s, d, q, offset + 1) == Some(p) && s[p] == q
    ensures CloseQuote(s, q, p + 1).None? ==> Pieces(s, d, q, start, offset) == [s[start..]]
    ensures CloseQuote(s, q, p + 1).Some? ==>
      Pieces(s, d, q, start, offset) == Pieces(s, d, q, start, CloseQuote(s, q, p + 1).value)
  {
  }

  /** The scan after skipping the span opened at `p`, which closes at `c` or, when `c < 0`, never. */
  lemma {:induction false} PiecesAfterSpan(s: string, d: char, q: char, start: nat, offset: nat, p: nat, c: int)
    requires start <= offset <= |s| && NextStop(s, d, q, offset + 1) == Some(p) && s[p] == q
    requires CloseQuote(s, q, p + 1).None? ==> c == -1
    requires CloseQuote(s, q, p + 1).Some? ==> c == CloseQuote(s, q, p + 1).value
    ensures c >= 0 ==> start <= c <= |s| && Pieces(s, d, q, start, offset) == Pieces(s, d, q, start, c)
    ensures c < 0 ==> Pieces(s, d, q, start, offset) == [s[start..]]
  {
    PiecesQuote(s, d, q, start, offset, p);
  }

  /** One step of the scan at a delimiter at `p`. */
  lemma {:induction false} PiecesSplit(s: string, d: char, q: char, start: nat, offset: nat, p: nat)
    requires start <= offset <= |s| && NextStop(s, d, q, offset + 1) == Some(p) && s[p] != q
    ensures Pieces(s, d, q, start, offset) == [s[start..p]] + Pieces(s, d, q, p + 1, p + 1)
  {
  }

  /**
   * One pass of the inner loop: the next quote found by `indexOf`, if a
   * backslash precedes it, leaves the closing quote still to be found after it.
   */
  lemma {:induction false} CloseQuoteIndexOf(s: string, q: char, from: nat)
    requires from >= 1
    ensures IndexOf(s, q, from).None? ==> CloseQuote(s, q, from).None?
    ensures IndexOf(s, q, from).Some? && s[IndexOf(s, q, from).value - 1] != '\\' ==>
      CloseQuote(s, q, from) == IndexOf(s, q, from)
    ensures IndexOf(s, q, from).Some? && s[IndexOf(s, q, from).value - 1] == '\\' ==>
      CloseQuote(s, q, from) == CloseQuote(s, q, IndexOf(s, q, from).value + 1)
  {
    var i := IndexOf(s, q, from);
    if i.None? {
      forall k | from <= k < |s| ensures !Closes(s, q, k) {
      }
      CloseQuoteNoneAt(s, q, from);
    } else {
      var p := i.value;
      forall k | from <= k < p ensures !Closes(s, q, k) {
      }
      if s[p - 1] != '\\' {
        CloseQuoteAt(s, q, from, p);
      } else {
        CloseQuoteSkip(s, q, from, p);
      }
    }
  }

  /** With no closing quote in `[from, p]`, the search may as well start after `p`. */
  lemma {:induction false} CloseQuoteSkip(s: string, q: char, from: nat, p: nat)
    requires 1 <= from <= p < |s|
    requires forall k :: from <= k <= p ==> !Closes(s, q, k)
    ensures CloseQuote(s, q, from) == CloseQuote(s, q, p + 1)
  {
    var r := CloseQuote(s, q, p + 1);
    CloseQuoteFirst(s, q, p + 1);
    if r.Some? {
      CloseQuoteAt(s, q, from, r.value);
    } else {
      CloseQuoteNoneAt(s, q, from);
    }
  }

  /**
   * The inner loop of `splitQuotedString`: from the opening quote at `open`,
   * the position of the closing quote, or -1 when the span is unclosed.
   */
  method SkipQuoted(str: string, quote: char, open: nat) returns (offset: int)
    requires open < |str|
    ensures CloseQuote(str, quote, open + 1).None? ==> offset == -1
    ensures CloseQuote(str, quote, open + 1).Some? ==> offset == CloseQuote(str, quote, open + 1).value
  {
    offset := open;
    while true
      invariant open <= offset < |str|
      invariant CloseQuote(str, quote, open + 1) == CloseQuote(str, quote, offset + 1)
      decreases |str| - offset
    {
      var p := IndexOf(str, quote, offset + 1);
      CloseQuoteIndexOf(str, quote, offset + 1);
      if p.None? {
        offset := -1;
        break;
      }
      if str[p.value - 1] != '\\' {
        offset := p.value;
        break;
      }
      offset := p.value;
    }
  }

  lemma {:induction false} TrimAllSnoc(ps: seq<string>, x: string)
    ensures TrimAll(ps + [x]) == TrimAll(ps) + [Trim(x)]
  {
    TrimAllAppend(ps, [x]);
  }

  /** The loop of `splitQuotedString` at a delimiter at `p`: the field before it is done. */
  lemma {:induction false} AdvanceField(s: string, d: char, q: char, done: seq<string>, total: seq<string>, start: nat, from: nat, p: nat)
    requires start <= from <= |s| && NextStop(s, d, q, from + 1) == Some(p) && s[p] != q
    requires done + Pieces(s, d, q, start, from) == total
    ensures (done + [s[start..p]]) + Pieces(s, d, q, p + 1, p + 1) == total
    ensures TrimAll(done + [s[start..p]]) == TrimAll(done) + [Trim(s[start..p])]
  {
    PiecesSplit(s, d, q, start, from, p);
    assert done + ([s[start..p]] + Pieces(s, d, q, p + 1, p + 1)) ==
      (done + [s[start..p]]) + Pieces(s, d, q, p + 1, p + 1);
    TrimAllSnoc(done, s[start..p]);
  }

  /** `splitQuotedString(str, delim, quote)`, the loop advancing `offset` and `start`. */
  method SplitQuotedString(str: string, delim: char, quote: char) returns (res: seq<string>)
    ensures res == Split(str, delim, quote)
  {
    res := [];
    var start: nat := 0;
    var offset: int := 0;
    ghost var done: seq<string> := [];
    ghost var total := Pieces(str, delim, quote, 0, 0);
    // `while (offset >= 0)`: `offset` only turns negative on an unclosed quote, which ends the scan.
    while true
      invariant start <= offset <= |str|
      invariant res == TrimAll(done)
      invariant done + Pieces(str, delim, quote, start, offset) == total
      decreases |str| + 1 - offset
    {
      var next := Earlier(IndexOf(str, delim, offset + 1), IndexOf(str, quote, offset + 1));
      NextStopIndexOf(str, delim, quote, offset + 1);
      if next.None? {
        PiecesAtEnd(str, delim, quote, start, offset);
        assert done + [str[start..]] == total;
        break;
      }
      ghost var from := offset;
      offset := next.value;
      if str[offset] == quote {
        ghost var open := offset;
        offset := SkipQuoted(str, quote, offset);
        PiecesAfterSpan(str, delim, quote, start, from, open, offset);
        if offset < 0 {
          assert done + [str[start..]] == total;
          break;
        }
        assert done + Pieces(str, delim, quote, start, offset) == total;
      } else {
        AdvanceField(str, delim, quote, done, total, start, from, offset);
        res := res + [Trim(str[start..offset])];
        done := done + [str[start..offset]];
        offset := offset + 1;
        start := offset;
        assert done + Pieces(str, delim, quote, start, offset) == total;
      }
    }
    TrimAllSnoc(done, str[start..]);
    res := res + [Trim(str[start..])];
  }

  /** `splitContentTypes`: split an Accept header on commas. */
  method SplitContentTypes(str: string) returns (res: seq<string>)
    ensures res == Split(str, ',', '"')
  {
    res := SplitQuotedString(str, ',', '"');
  }

  /** Without a delimiter after `offset`, the field that begins at `start` runs to the end. */
  lemma {:induction false} PiecesNoDelimiter(s: string, d: char, q: char, start: nat, offset: nat)
    requires start <= offset <= |s|
    requires forall k :: offset < k < |s| ==> s[k] != d
    ensures Pieces(s, d, q, start, offset) == [s[start..]]
    decreases |s| - offset
  {
    match NextStop(s, d, q, offset + 1)
    case None =>
    case Some(p) =>
      match CloseQuote(s, q, p + 1)
      case None =>
      case Some(c) => PiecesNoDelimiter(s, d, q, start, c);
  }

  /** With no delimiter after the first character, the result is the single trimmed input. */
  lemma {:induction false} SplitNoDelimiter(s: string, d: char, q: char)
    requires forall k :: 1 <= k < |s| ==> s[k] != d
    ensures Split(s, d, q) == [Trim(s)]
  {
    PiecesNoDelimiter(s, d, q, 0, 0);
  }

  lemma {:induction false} TrimAllTrimmed(ps: seq<string>)
    requires forall i :: 0 <= i < |ps| ==> IsTrimmed(ps[i])
    ensures TrimAll(ps) == ps
  {
    forall i | 0 <= i < |ps| ensures TrimAll(ps)[i] == ps[i] {
      TrimIdentity(ps[i]);
    }
  }

  lemma {:induction false} PiecesDoubleDelimiter()
    ensures Pieces("a;;b", ';', '"', 0, 0) == ["a", ";b"]
  {
    var s := "a;;b";
    assert NextStop(s, ';', '"', 1) == Some(1);
    assert NextStop(s, ';', '"', 3) == None;
    PiecesSplit(s, ';', '"', 0, 0, 1);
    PiecesAtEnd(s, ';', '"', 2, 2);
    assert s[0..1] == "a" && s[2..] == ";b";
  }

  /** The search starts one past each delimiter, so a second delimiter in a row does not split. */
  lemma {:induction false} SplitDoubleDelimiter()
    ensures Split("a;;b", ';', '"') == ["a", ";b"]
  {
    PiecesDoubleDelimiter();
    TrimAllPair("a", ";b");
  }

  lemma {:induction false} PiecesLeadingQuote()
    ensures Pieces("\"a;b\"", ';', '"', 0, 0) == ["\"a", "b\""]
  {
    var s := "\"a;b\"";
    assert NextStop(s, ';', '"', 1) == Some(2);
    assert NextStop(s, ';', '"', 4) == Some(4);
    assert CloseQuote(s, '"', 5) == None;
    PiecesSplit(s, ';', '"', 0, 0, 2);
    PiecesQuote(s, ';', '"', 3, 3, 4);
    assert s[0..2] == "\"a" && s[3..] == "b\"";
  }

  /** The first character is never looked at: a quote there opens no span. */
  lemma {:induction false} SplitLeadingQuote()
    ensures Split("\"a;b\"", ';', '"') == ["\"a", "b\""]
  {
    PiecesLeadingQuote();
    TrimAllPair("\"a", "b\"");
  }

  lemma {:induction false} TrimAllPair(x: string, y: string)
    requires IsTrimmed(x) && IsTrimmed(y)
    ensures TrimAll([x, y]) == [x, y]
  {
    TrimAllTwo(x, y);
    TrimIdentity(x);
    TrimIdentity(y);
  }

  lemma {:induction false} TrimAllTwo(x: string, y: string)
    ensures TrimAll([x, y]) == [Trim(x), Trim(y)]
  {
  }

  /** A piece of a field as written: plain text, a closed `"` span, or a span left open. */
  datatype Part = Plain(text: string) | Quoted(body: string) | Open(body: string)

  function RenderPart(p: Part, q: char): (r: string) {
    match p
    case Plain(t) => t
    case Quoted(b) => [q] + b + [q]
    case Open(b) => [q] + b
  }

  function RenderParts(ps: seq<Part>, q: char): (r: string) {
    if ps == [] then [] else RenderPart(ps[0], q) + RenderParts(ps[1..], q)
  }

  /** The fields joined by the delimiter. */
  function RenderFields(fs: seq<seq<Part>>, d: char, q: char): (r: string)
    requires |fs| >= 1
  {
    if |fs| == 1 then RenderParts(fs[0], q) else RenderParts(fs[0], q) + [d] + RenderFields(fs[1..], d, q)
  }

  function RenderEach(fs: seq<seq<Part>>, q: char): (r: seq<string>)
    ensures |r| == |fs|
    ensures forall i :: 0 <= i < |fs| ==> r[i] == RenderParts(fs[i], q)
  {
    if fs == [] then [] else [RenderParts(fs[0], q)] + RenderEach(fs[1..], q)
  }

  /** Every quote inside a span body is escaped by the backslash before it. */
  predicate EscapedBody(b: string, q: char) {
    (b == [] || b[0] != q) && forall k :: 1 <= k < |b| ==> !Closes(b, q, k)
  }

  predicate CleanPart(p: Part, d: char, q: char) {
    match p
    case Plain(t) => forall k :: 0 <= k < |t| ==> t[k] != d && t[k] != q
    case Quoted(b) => EscapedBody(b, q) && (b == [] || b[|b| - 1] != '\\')
    case Open(b) => EscapedBody(b, q)
  }

  /** Every part is clean, and an open span, if any, is the last part and ends the input. */
  predicate CleanParts(ps: seq<Part>, d: char, q: char, atEnd: bool) {
    ps == [] || (CleanPart(ps[0], d, q) && (ps[0].Open? ==> |ps| == 1 && atEnd) && CleanParts(ps[1..], d, q, atEnd))
  }

  /**
   * A field that starts with plain text, whose parts are clean, and which may
   * end in an open span only when it is the last field.
   */
  predicate CleanField(f: seq<Part>, d: char, q: char, last: bool) {
    |f| >= 1 && f[0].Plain? && f[0].text != [] && CleanParts(f, d, q, last)
  }

  predicate CleanFields(fs: seq<seq<Part>>, d: char, q: char) {
    |fs| >= 1 && forall i :: 0 <= i < |fs| ==> CleanField(fs[i], d, q, i == |fs| - 1)
  }

  /** Moving the scan over plain text changes nothing. */
  lemma {:induction false} PiecesShift(s: string, d: char, q: char, start: nat, offset: nat, o2: nat)
    requires start <= offset <= o2 <= |s|
    requires forall k :: offset < k <= o2 && k < |s| ==> s[k] != d && s[k] != q
    ensures Pieces(s, d, q, start, offset) == Pieces(s, d, q, start, o2)
  {
    var a := NextStop(s, d, q, offset + 1);
    NextStopFirst(s, d, q, offset + 1);
    if a.Some? {
      assert a.value > o2;
      NextStopAt(s, d, q, o2 + 1, a.value);
    } else {
      NextStopNoneAt(s, d, q, o2 + 1);
    }
    assert NextStop(s, d, q, offset + 1) == NextStop(s, d, q, o2 + 1);
  }

  lemma {:induction false} CloseQuoteAt(s: string, q: char, from: nat, c: nat)
    requires 1 <= from <= c < |s| && Closes(s, q, c)
    requires forall k :: from <= k < c ==> !Closes(s, q, k)
    ensures CloseQuote(s, q, from) == Some(c)
    decreases c - from
  {
    if from < c {
      CloseQuoteAt(s, q, from + 1, c);
    }
  }

  lemma {:induction false} CloseQuoteNoneAt(s: string, q: char, from: nat)
    requires 1 <= from
    requires forall k :: from <= k < |s| ==> !Closes(s, q, k)
    ensures CloseQuote(s, q, from) == None
    decreases |s| - from
  {
    if from < |s| {
      CloseQuoteNoneAt(s, q, from + 1);
    }
  }

  /** An escaped body placed after a quote at `p` has no closing quote inside it. */
  lemma {:induction false} BodyNotClosed(s: string, q: char, p: nat, b: string)
    requires q != '\\' && p + 1 + |b| <= |s| && s[p] == q && s[p + 1..p + 1 + |b|] == b
    requires EscapedBody(b, q)
    ensures forall k :: p + 1 <= k < p + 1 + |b| ==> !Closes(s, q, k)
  {
    forall k | p + 1 <= k < p + 1 + |b|
      ensures !Closes(s, q, k)
    {
      var j := k - (p + 1);
      assert s[k] == b[j];
      if j >= 1 {
        assert s[k - 1] == b[j - 1];
        assert !Closes(b, q, j);
      }
    }
  }

  /** The scan after the last part of a field, which ends before `end`. */
  lemma {:induction false} ScanNoParts(s: string, d: char, q: char, start: nat, end: nat)
    requires d != q && start < end <= |s|
    requires end == |s| || s[end] == d
    ensures end < |s| ==>
      Pieces(s, d, q, start, end - 1) == [s[start..end]] + Pieces(s, d, q, end + 1, end + 1)
    ensures end == |s| ==> Pieces(s, d, q, start, end - 1) == [s[start..]]
  {
    var offset := end - 1;
    if end < |s| {
      assert NextStop(s, d, q, offset + 1) == Some(end);
      PiecesSplit(s, d, q, start, offset, end);
    } else {
      PiecesAtEnd(s, d, q, start, offset);
    }
  }

  /** The scan over a plain part `t` written right after `offset`. */
  lemma {:induction false} ScanPlain(s: string, d: char, q: char, start: nat, offset: nat, t: string)
    requires start <= offset && offset + 1 + |t| <= |s| && s[offset + 1..offset + 1 + |t|] == t
    requires forall k :: 0 <= k < |t| ==> t[k] != d && t[k] != q
    ensures Pieces(s, d, q, start, offset) == Pieces(s, d, q, start, offset + |t|)
  {
    var o2 := offset + |t|;
    forall k | offset < k <= o2 && k < |s|
      ensures s[k] != d && s[k] != q
    {
      assert s[offset + 1..offset + 1 + |t|][k - offset - 1] == s[k];
    }
    PiecesShift(s, d, q, start, offset, o2);
  }

  /** The scan over a closed span with body `b` written right after `offset`. */
  lemma {:induction false} ScanQuoted(s: string, d: char, q: char, start: nat, offset: nat, b: string)
    requires q != '\\' && start <= offset
    requires offset + 3 + |b| <= |s| && s[offset + 1..offset + 3 + |b|] == [q] + b + [q]
    requires EscapedBody(b, q) && (b == [] || b[|b| - 1] != '\\')
    ensures Pieces(s, d, q, start, offset) == Pieces(s, d, q, start, offset + 2 + |b|)
  {
    var p := offset + 1;
    var c := p + 1 + |b|;
    Bracketed(s, p, q, b);
    NextStopAt(s, d, q, offset + 1, p);
    BodyNotClosed(s, q, p, b);
    assert Closes(s, q, c) by {
      if b != [] {
        assert s[c - 1] == b[|b| - 1];
      }
    }
    CloseQuoteAt(s, q, p + 1, c);
    PiecesQuote(s, d, q, start, offset, p);
  }

  lemma {:induction false} Bracketed(s: string, p: nat, q: char, b: string)
    requires p + 2 + |b| <= |s| && s[p..p + 2 + |b|] == [q] + b + [q]
    ensures s[p] == q && s[p + 1..p + 1 + |b|] == b && s[p + 1 + |b|] == q
  {
    var w := s[p..p + 2 + |b|];
    assert w == [q] + b + [q];
    assert w[0] == q && w[1 + |b|] == q;
    assert w[1..1 + |b|] == b by {
      forall k | 0 <= k < |b| ensures w[1..1 + |b|][k] == b[k] {
        assert w[1 + k] == ([q] + b)[1 + k];
      }
    }
    forall k | 0 <= k < |b| ensures s[p + 1..p + 1 + |b|][k] == b[k] {
      assert s[p + 1 + k] == w[1 + k];
    }
  }

  /** The scan over a span with body `b` that runs to the end of the input. */
  lemma {:induction false} ScanOpen(s: string, d: char, q: char, start: nat, offset: nat, b: string)
    requires q != '\\' && start <= offset
    requires offset + 2 + |b| == |s| && s[offset + 1..] == [q] + b
    requires EscapedBody(b, q)
    ensures Pieces(s, d, q, start, offset) == [s[start..]]
  {
    var p := offset + 1;
    assert s[p] == q && s[p + 1..] == b;
    NextStopAt(s, d, q, offset + 1, p);
    BodyNotClosed(s, q, p, b);
    CloseQuoteNoneAt(s, q, p + 1);
    PiecesQuote(s, d, q, start, offset, p);
  }

  /**
   * Scanning the parts `ps` written right after `offset` and ending before
   * `end` cuts nothing: the scan arrives at `end - 1` with the field that
   * began at `start` still open.
   */
  lemma {:induction false} ScanParts(s: string, d: char, q: char, start: nat, offset: nat, ps: seq<Part>, end: nat)
    requires d != q && q != '\\'
    requires start <= offset && end == offset + 1 + |RenderParts(ps, q)| && end <= |s|
    requires s[offset + 1..end] == RenderParts(ps, q)
    requires CleanParts(ps, d, q, end == |s|)
    ensures Pieces(s, d, q, start, offset) == Pieces(s, d, q, start, end - 1)
    decreases |ps|
  {
    if ps == [] {
      assert end - 1 == offset;
    } else if ps[0].Open? {
      ScanLastOpen(s, d, q, start, offset, ps, end);
    } else {
      SliceParts(s, offset + 1, end, ps, q);
      var o2 := offset + |RenderPart(ps[0], q)|;
      ScanClosedPart(s, d, q, start, offset, ps[0]);
      ScanParts(s, d, q, start, o2, ps[1..], end);
    }
  }

  /** The scan over a plain part or a closed span written right after `offset`. */
  lemma {:induction false} ScanClosedPart(s: string, d: char, q: char, start: nat, offset: nat, p: Part)
    requires q != '\\' && start <= offset && !p.Open? && CleanPart(p, d, q)
    requires offset + 1 + |RenderPart(p, q)| <= |s| && s[offset + 1..offset + 1 + |RenderPart(p, q)|] == RenderPart(p, q)
    ensures Pieces(s, d, q, start, offset) == Pieces(s, d, q, start, offset + |RenderPart(p, q)|)
  {
    match p
    case Plain(t) => ScanPlain(s, d, q, start, offset, t);
    case Quoted(b) => ScanQuoted(s, d, q, start, offset, b);
  }

  /** The scan over a final open span. */
  lemma {:induction false} ScanLastOpen(s: string, d: char, q: char, start: nat, offset: nat, ps: seq<Part>, end: nat)
    requires q != '\\' && ps != [] && ps[0].Open?
    requires start <= offset && end == offset + 1 + |RenderParts(ps, q)| && end <= |s|
    requires s[offset + 1..end] == RenderParts(ps, q)
    requires CleanParts(ps, d, q, end == |s|)
    ensures Pieces(s, d, q, start, offset) == Pieces(s, d, q, start, end - 1)
  {
    var b := ps[0].body;
    assert ps[1..] == [] && end == |s|;
    assert RenderParts(ps, q) == [q] + b;
    ScanOpen(s, d, q, start, offset, b);
    PiecesAtEnd(s, d, q, start, end - 1);
  }

  /** The text of the first part and of the rest, inside `s`. */
  lemma {:induction false} SliceParts(s: string, lo: nat, hi: nat, ps: seq<Part>, q: char)
    requires ps != [] && lo <= hi <= |s| && s[lo..hi] == RenderParts(ps, q)
    ensures lo + |RenderPart(ps[0], q)| <= hi
    ensures s[lo..lo + |RenderPart(ps[0], q)|] == RenderPart(ps[0], q)
    ensures s[lo + |RenderPart(ps[0], q)|..hi] == RenderParts(ps[1..], q)
  {
    var first := RenderPart(ps[0], q);
    var w := s[lo..hi];
    assert w == first + RenderParts(ps[1..], q);
    assert s[lo..lo + |first|] == w[..|first|];
    assert s[lo + |first|..hi] == w[|first|..];
  }

  /** Where the first field of `fs`, written at `start`, ends, and what follows it. */
  lemma {:induction false} FieldSpan(s: string, d: char, q: char, start: nat, fs: seq<seq<Part>>) returns (end: nat)
    requires |fs| >= 1
    requires start <= |s| && s[start..] == RenderFields(fs, d, q)
    ensures start <= end <= |s| && s[start..end] == RenderParts(fs[0], q)
    ensures |fs| == 1 <==> end == |s|
    ensures |fs| > 1 ==> s[end] == d && s[end + 1..] == RenderFields(fs[1..], d, q)
  {
    var f := RenderParts(fs[0], q);
    end := start + |f|;
    if |fs| == 1 {
      assert s[start..] == f;
    } else {
      var rest := RenderFields(fs[1..], d, q);
      var t := s[start..];
      assert t == f + [d] + rest;
      assert s[start..end] == t[..|f|];
      assert s[end] == t[|f|];
      assert s[end + 1..] == t[|f| + 1..];
    }
  }

  /** A clean field without its first character: its head loses one character, the other parts stay. */
  lemma {:induction false} DropFirst(f: seq<Part>, d: char, q: char, last: bool) returns (ps: seq<Part>)
    requires CleanField(f, d, q, last)
    ensures RenderParts(f, q) != [] && RenderParts(ps, q) == RenderParts(f, q)[1..]
    ensures CleanParts(ps, d, q, last)
  {
    var h := f[0].text;
    ps := [Plain(h[1..])] + f[1..];
    assert RenderParts(f, q) == h + RenderParts(f[1..], q);
    assert ps[1..] == f[1..];
    assert RenderParts(ps, q) == h[1..] + RenderParts(f[1..], q);
    assert CleanPart(Plain(h[1..]), d, q) by {
      assert forall k :: 0 <= k < |h[1..]| ==> h[1..][k] == h[k + 1];
    }
  }

  /**
   * The first field of `fs`, written at `start`, seen as the scan sees it:
   * its first character is skipped, the rest are the parts `ps`, and the
   * field ends before `end`, at a delimiter unless it is the last one.
   */
  lemma {:induction false} FirstField(s: string, d: char, q: char, start: nat, fs: seq<seq<Part>>) returns (ps: seq<Part>, end: nat)
    requires CleanFields(fs, d, q)
    requires start <= |s| && s[start..] == RenderFields(fs, d, q)
    ensures start < end <= |s| && end == start + 1 + |RenderParts(ps, q)|
    ensures s[start..end] == RenderParts(fs[0], q)
    ensures s[start + 1..end] == RenderParts(ps, q)
    ensures CleanParts(ps, d, q, end == |s|)
    ensures |fs| == 1 <==> end == |s|
    ensures |fs| > 1 ==> s[end] == d && s[end + 1..] == RenderFields(fs[1..], d, q)
  {
    end := FieldSpan(s, d, q, start, fs);
    assert CleanField(fs[0], d, q, |fs| == 1);
    ps := DropFirst(fs[0], d, q, |fs| == 1);
    var w := s[start..end];
    assert s[start + 1..end] == w[1..];
  }

  lemma {:induction false} CleanFieldsTail(fs: seq<seq<Part>>, d: char, q: char)
    requires CleanFields(fs, d, q) && |fs| > 1
    ensures CleanFields(fs[1..], d, q)
  {
    assert forall i :: 0 <= i < |fs[1..]| ==> fs[1..][i] == fs[i + 1];
  }

  /** The scan of the first field of `fs`: one piece, its text, then the scan of the others. */
  lemma {:induction false} FirstFieldPieces(s: string, d: char, q: char, start: nat, fs: seq<seq<Part>>) returns (end: nat)
    requires d != q && q != '\\'
    requires CleanFields(fs, d, q)
    requires start <= |s| && s[start..] == RenderFields(fs, d, q)
    ensures |fs| == 1 ==> Pieces(s, d, q, start, start) == [RenderParts(fs[0], q)]
    ensures |fs| > 1 ==> end < |s| && s[end + 1..] == RenderFields(fs[1..], d, q)
    ensures |fs| > 1 ==> Pieces(s, d, q, start, start) == [RenderParts(fs[0], q)] + Pieces(s, d, q, end + 1, end + 1)
  {
    var ps;
    ps, end := FirstField(s, d, q, start, fs);
    ScanNoParts(s, d, q, start, end);
    ScanParts(s, d, q, start, start, ps, end);
    if |fs| == 1 {
      assert s[start..] == s[start..end];
    }
  }

  /** Scanning whole fields from the start of one of them. */
  lemma {:induction false} ScanFields(s: string, d: char, q: char, start: nat, fs: seq<seq<Part>>)
    requires d != q && q != '\\'
    requires CleanFields(fs, d, q)
    requires start <= |s| && s[start..] == RenderFields(fs, d, q)
    ensures Pieces(s, d, q, start, start) == RenderEach(fs, q)
    decreases |fs|
  {
    var end := FirstFieldPieces(s, d, q, start, fs);
    if |fs| > 1 {
      CleanFieldsTail(fs, d, q);
      ScanFields(s, d, q, end + 1, fs[1..]);
      RenderEachCons(fs, q, Pieces(s, d, q, start, start), RenderParts(fs[0], q), Pieces(s, d, q, end + 1, end + 1));
    } else {
      RenderEachCons(fs, q, Pieces(s, d, q, start, start), RenderParts(fs[0], q), []);
    }
  }

  /** Pieces that are the first field's text followed by the others' texts are the texts of all fields. */
  lemma {:induction false} RenderEachCons(fs: seq<seq<Part>>, q: char, all: seq<string>, first: string, rest: seq<string>)
    requires |fs| >= 1 && all == [first] + rest
    requires first == RenderParts(fs[0], q) && rest == RenderEach(fs[1..], q)
    ensures all == RenderEach(fs, q)
  {
  }

  /**
   * Splitting a header written as clean fields gives back each field, trimmed:
   * a delimiter inside a closed or an unclosed `"` span does not split, and a
   * span ends only at a quote that no backslash precedes.
   */
  lemma {:induction false} SplitFields(fs: seq<seq<Part>>, d: char, q: char)
    requires d != q && q != '\\'
    requires CleanFields(fs, d, q)
    ensures Split(RenderFields(fs, d, q), d, q) == TrimAll(RenderEach(fs, q))
  {
    var s := RenderFields(fs, d, q);
    assert s[0..] == s;
    ScanFields(s, d, q, 0, fs);
  }

  /** Each text preceded by the delimiter: the tail of a joined header. */
  function Prefixed(xs: seq<string>, d: char): (r: string) {
    if xs == [] then [] else [d] + xs[0] + Prefixed(xs[1..], d)
  }

  lemma {:induction false} PrefixedSnoc(xs: seq<string>, x: string, d: char)
    ensures Prefixed(xs + [x], d) == Prefixed(xs, d) + [d] + x
  {
    if xs != [] {
      assert (xs + [x])[1..] == xs[1..] + [x];
      PrefixedSnoc(xs[1..], x, d);
    }
  }

  /** Two fields, each after its delimiter. */
  lemma PrefixedPair(a: string, b: string, d: char)
    ensures Prefixed([a, b], d) == [d] + a + [d] + b
  {
    assert [a, b][1..] == [b];
    assert [b][1..] == [];
    assert Prefixed([b], d) == [d] + b;
    assert Prefixed([a, b], d) == [d] + a + ([d] + b);
  }

  lemma {:induction false} PrefixedAppend(a: seq<string>, b: seq<string>, d: char)
    ensures Prefixed(a + b, d) == Prefixed(a, d) + Prefixed(b, d)
  {
    if a == [] {
      assert a + b == b;
    } else {
      assert (a + b)[1..] == a[1..] + b;
      PrefixedAppend(a[1..], b, d);
    }
  }

  lemma {:induction false} RenderEachTail(fs: seq<seq<Part>>, q: char)
    requires |fs| >= 1
    ensures RenderEach(fs[1..], q) == RenderEach(fs, q)[1..]
  {
  }

  lemma {:induction false} RenderFieldsOf(fs: seq<seq<Part>>, d: char, q: char, first: string, rest: seq<string>)
    requires RenderEach(fs, q) == [first] + rest
    ensures RenderFields(fs, d, q) == first + Prefixed(rest, d)
  {
    RenderEachTail(fs, q);
    RenderFieldsJoined(fs, d, q);
  }

  lemma {:induction false} TrimAllTrimmedPrefix(a: seq<string>, b: seq<string>)
    requires forall i :: 0 <= i < |a| ==> IsTrimmed(a[i])
    ensures TrimAll(a + b) == a + TrimAll(b)
  {
    TrimAllAppend(a, b);
    TrimAllTrimmed(a);
  }

  /** The rendered fields are the first field followed by the others, each after a delimiter. */
  lemma {:induction false} RenderFieldsJoined(fs: seq<seq<Part>>, d: char, q: char)
    requires |fs| >= 1
    ensures RenderFields(fs, d, q) == RenderParts(fs[0], q) + Prefixed(RenderEach(fs[1..], q), d)
    decreases |fs|
  {
    if |fs| > 1 {
      RenderFieldsJoined(fs[1..], d, q);
      assert fs[1..][1..] == fs[2..];
      assert RenderEach(fs[1..], q)[1..] == RenderEach(fs[2..], q);
    } else {
      assert RenderEach(fs[1..], q) == [];
    }
  }
}
