/** The catalog's read side (`database_manager/main.py`): the filter-clause
    language `key:"a, b" -key:"c"` and the SELECT statement `get` queues.

    A filter clause is scanned for `key:"value"` terms; a key starting with
    `-` excludes, any other key includes. A term's value is split on commas
    into an OR-group with one `?` per value, groups of the same kind are
    joined with ` AND `, and the bind values are the include values in term
    order followed by the exclude values in term order. */
module CatalogQuery {
  import opened Wrappers
  import opened Text
  import opened CatalogSchema

  /** The exceptions `get` lets escape: a JOIN key missing from
      `JOIN_MAPPING`, or a term whose value holds a `:` so that it does not
      unpack into a key and a value. */
  datatype Failure = KeyError | ValueError

  /** A `key:"value"` term as the term pattern finds it, without its quotes. */
  datatype Term = Term(key: string, value: string)

  /** The characters `[-a-zA-Z]` a term key is made of. */
  predicate KeyChar(c: char) { c == '-' || IsAsciiLetter(c) }

  /** End of the run of key characters starting at `p`. */
  function KeyEnd(s: string, p: nat): (j: nat)
    requires p <= |s|
    ensures p <= j <= |s|
    ensures forall i :: p <= i < j ==> KeyChar(s[i])
    ensures j < |s| ==> !KeyChar(s[j])
    decreases |s| - p
  {
    if p < |s| && KeyChar(s[p]) then KeyEnd(s, p + 1) else p
  }

  /** The first `"` or line feed at or after `p` (`.` never matches a line
      feed). */
  function QuoteEnd(s: string, p: nat): (q: nat)
    requires p <= |s|
    ensures p <= q <= |s|
    ensures forall i :: p <= i < q ==> s[i] != '"' && s[i] != '\n'
    ensures q < |s| ==> s[q] == '"' || s[q] == '\n'
    decreases |s| - p
  {
    if p < |s| && s[p] != '"' && s[p] != '\n' then QuoteEnd(s, p + 1) else p
  }

  /** The term pattern `[-a-zA-Z]*?:".*?"` tried at position `p`: the term
      and the index just past its closing quote. Both repetitions are lazy,
      but `:` is not a key character, so the key is the whole run of key
      characters and the value ends at the first quote. */
  function MatchAt(s: string, p: nat): (r: Option<(Term, nat)>)
    requires p <= |s|
    ensures r.Some? ==> p < r.value.1 <= |s|
  {
    var j := KeyEnd(s, p);
    if j + 1 < |s| && s[j] == ':' && s[j + 1] == '"' then
      var q := QuoteEnd(s, j + 2);
      if q < |s| && s[q] == '"' then
        Some((Term(s[p..j], s[j + 2..q]), q + 1))
      else None
    else None
  }

  /** What the pattern matches is a scannable term written out in full. */
  lemma MatchIsRendered(s: string, p: nat)
    requires p <= |s| && MatchAt(s, p).Some?
    ensures Scannable(MatchAt(s, p).value.0)
    ensures s[p..MatchAt(s, p).value.1] == RenderTerm(MatchAt(s, p).value.0)
  {
    var j := KeyEnd(s, p);
    var q := QuoteEnd(s, j + 2);
    assert MatchAt(s, p) == Some((Term(s[p..j], s[j + 2..q]), q + 1));
    SlicesScannable(s, p, j, q);
    SlicesRender(s, p, j, q);
  }

  lemma SlicesScannable(s: string, p: nat, j: nat, q: nat)
    requires p <= j && j + 2 <= q <= |s|
    requires forall i :: p <= i < j ==> KeyChar(s[i])
    requires forall i :: j + 2 <= i < q ==> s[i] != '"' && s[i] != '\n'
    ensures Scannable(Term(s[p..j], s[j + 2..q]))
  {
    var key := s[p..j];
    var value := s[j + 2..q];
    assert forall i :: 0 <= i < |key| ==> key[i] == s[p + i];
    assert forall i :: 0 <= i < |value| ==> value[i] == s[j + 2 + i];
  }

  lemma SlicesRender(s: string, p: nat, j: nat, q: nat)
    requires p <= j && j + 2 <= q < |s|
    requires s[j] == ':' && s[j + 1] == '"' && s[q] == '"'
    ensures s[p..q + 1] == RenderTerm(Term(s[p..j], s[j + 2..q]))
  {
    assert s[j..j + 2] == ":\"" && s[q..q + 1] == "\"";
    assert s[p..q + 1] == s[p..j] + s[j..j + 2] + s[j + 2..q] + s[q..q + 1];
  }

  /** `re.findall` of the term pattern from position `p`: where no term
      starts, the scan moves on by one character; after a term it resumes
      just past the closing quote. */
  function FindTerms(s: string, p: nat): seq<Term>
    requires p <= |s|
    decreases |s| - p
  {
    if p == |s| then []
    else
      match MatchAt(s, p)
      case Some((t, e)) => [t] + FindTerms(s, e)
      case None => FindTerms(s, p + 1)
  }

  /** A term the scanner can find whole: a key of key characters and a
      value with neither a quote nor a line feed. */
  predicate Scannable(t: Term) {
    (forall i :: 0 <= i < |t.key| ==> KeyChar(t.key[i])) && '"' !in t.value && '\n' !in t.value
  }

  function RenderTerm(t: Term): string {
    t.key + ":\"" + t.value + "\""
  }

  /** Terms written one after another, separated by single spaces. */
  function RenderTerms(ts: seq<Term>): string
    decreases |ts|
  {
    if |ts| == 0 then ""
    else if |ts| == 1 then RenderTerm(ts[0])
    else RenderTerm(ts[0]) + " " + RenderTerms(ts[1..])
  }

  /** A rendered term at position `p` of a text is matched whole. */
  lemma MatchRenderedAt(pre: string, t: Term, rest: string)
    requires Scannable(t)
    ensures MatchAt(pre + RenderTerm(t) + rest, |pre|) == Some((t, |pre| + |RenderTerm(t)|))
  {
    RenderedKey(pre, t, rest);
    RenderedValue(pre, t, rest);
    RenderSlices(pre, t, rest);
  }

  /** Where the key and the value of a rendered term sit in the text. */
  lemma RenderSlices(pre: string, t: Term, rest: string)
    ensures var s := pre + RenderTerm(t) + rest;
      var v := |pre| + |t.key| + 2;
      && v + |t.value| < |s|
      && s[|pre|..|pre| + |t.key|] == t.key && s[v..v + |t.value|] == t.value
      && |pre| + |RenderTerm(t)| == v + |t.value| + 1
  {
    var s := pre + RenderTerm(t) + rest;
    var v := |pre| + |t.key| + 2;
    var front := pre + t.key + ":\"";
    assert s == front + t.value + ("\"" + rest);
    assert |front| == v;
    assert s[v..v + |t.value|] == t.value;
    RenderSplit(pre, t, rest);
    assert s[|pre|..|pre| + |t.key|] == (pre + t.key)[|pre|..];
  }

  /** A rendered term in a text: the text before its key, the key, and the
      rest from its `:"` on. */
  lemma RenderSplit(pre: string, t: Term, rest: string)
    ensures pre + RenderTerm(t) + rest == (pre + t.key) + (":\"" + t.value + "\"" + rest)
  {
    assert RenderTerm(t) == t.key + (":\"" + t.value + "\"");
  }

  /** The key of a rendered term is a run of key characters ending at `:"`. */
  lemma RenderedKey(pre: string, t: Term, rest: string)
    requires Scannable(t)
    ensures var s := pre + RenderTerm(t) + rest;
      && KeyEnd(s, |pre|) == |pre| + |t.key|
      && s[|pre| + |t.key|] == ':' && s[|pre| + |t.key| + 1] == '"'
  {
    KeyChars(pre, t, rest);
    KeyEndRun(pre + RenderTerm(t) + rest, |pre|, |pre| + |t.key|);
  }

  lemma KeyChars(pre: string, t: Term, rest: string)
    requires Scannable(t)
    ensures var s := pre + RenderTerm(t) + rest;
      && |pre| + |t.key| + 1 < |s|
      && (forall i :: |pre| <= i < |pre| + |t.key| ==> KeyChar(s[i]))
      && s[|pre| + |t.key|] == ':' && s[|pre| + |t.key| + 1] == '"'
  {
    var after := ":\"" + t.value + "\"" + rest;
    var s := pre + RenderTerm(t) + rest;
    var p := |pre|;
    var n := |t.key|;
    RenderSplit(pre, t, rest);
    forall i | p <= i < p + n
      ensures KeyChar(s[i])
    {
      assert s[i] == (pre + t.key)[i] == t.key[i - p];
    }
    assert s[p + n] == after[0] == ':';
    assert s[p + n + 1] == after[1] == '"';
  }

  /** The value of a rendered term runs up to its closing quote. */
  lemma RenderedValue(pre: string, t: Term, rest: string)
    requires Scannable(t)
    ensures var s := pre + RenderTerm(t) + rest;
      var v := |pre| + |t.key| + 2;
      && QuoteEnd(s, v) == v + |t.value| && s[v + |t.value|] == '"'
  {
    var s := pre + RenderTerm(t) + rest;
    var v := |pre| + |t.key| + 2;
    var m := |t.value|;
    assert forall i :: v <= i < v + m ==> s[i] == t.value[i - v];
    assert s[v + m] == '"';
    QuoteEndRun(s, v, v + m);
  }

  lemma {:induction false} KeyEndRun(s: string, p: nat, j: nat)
    requires p <= j < |s|
    requires forall i :: p <= i < j ==> KeyChar(s[i])
    requires !KeyChar(s[j])
    ensures KeyEnd(s, p) == j
    decreases j - p
  {
    if p < j {
      KeyEndRun(s, p + 1, j);
    }
  }

  lemma {:induction false} QuoteEndRun(s: string, p: nat, q: nat)
    requires p <= q < |s|
    requires forall i :: p <= i < q ==> s[i] != '"' && s[i] != '\n'
    requires s[q] == '"'
    ensures QuoteEnd(s, p) == q
    decreases q - p
  {
    if p < q {
      QuoteEndRun(s, p + 1, q);
    }
  }

  /** A space cannot start a term, so the scan steps over it. */
  lemma SkipSpace(s: string, e: nat)
    requires e < |s| && s[e] == ' '
    ensures FindTerms(s, e) == FindTerms(s, e + 1)
  {
    assert KeyEnd(s, e) == e;
    assert MatchAt(s, e).None?;
  }

  /** Where a term matches, the scan yields it and resumes after it. */
  lemma FindAfterMatch(s: string, p: nat)
    requires p <= |s| && MatchAt(s, p).Some?
    ensures FindTerms(s, p) == [MatchAt(s, p).value.0] + FindTerms(s, MatchAt(s, p).value.1)
  {
  }

  /** Scanning from `|pre|` a text that continues with terms written out
      with single spaces between them finds exactly those terms. */
  lemma {:induction false} FindRenderedAt(pre: string, ts: seq<Term>)
    requires forall i :: 0 <= i < |ts| ==> Scannable(ts[i])
    ensures FindTerms(pre + RenderTerms(ts), |pre|) == ts
    decreases |ts|
  {
    if |ts| == 0 {
      assert pre + RenderTerms(ts) == pre;
    } else if |ts| == 1 {
      FindLast(pre, ts[0]);
      assert RenderTerms(ts) == RenderTerm(ts[0]) && [ts[0]] == ts;
    } else {
      FindRenderedAt(pre + RenderTerm(ts[0]) + " ", ts[1..]);
      assert RenderTerms(ts) == RenderTerm(ts[0]) + " " + RenderTerms(ts[1..]);
      FindMore(pre, ts[0], RenderTerms(ts[1..]), ts[1..], pre + RenderTerms(ts));
      assert [ts[0]] + ts[1..] == ts;
    }
  }

  /** A term, a space and more text: the term, then what the scan finds
      past the space. */
  lemma FindMore(pre: string, t: Term, tail: string, later: seq<Term>, whole: string)
    requires Scannable(t) && whole == pre + (RenderTerm(t) + " " + tail)
    requires FindTerms(pre + RenderTerm(t) + " " + tail, |pre + RenderTerm(t) + " "|) == later
    ensures FindTerms(whole, |pre|) == [t] + later
  {
    var head := RenderTerm(t);
    var s := pre + head + (" " + tail);
    assert whole == s && pre + head + " " + tail == s && |pre + head + " "| == |pre| + |head| + 1 by {
      SpacedText(pre, head, tail, head + " " + tail);
    }
    FindNext(pre, t, tail, s, later);
  }

  /** A term followed by a space and more terms: the scan yields the term
      and then what it finds past the space. */
  lemma FindNext(pre: string, t: Term, tail: string, s: string, later: seq<Term>)
    requires Scannable(t) && s == pre + RenderTerm(t) + (" " + tail)
    requires FindTerms(s, |pre| + |RenderTerm(t)| + 1) == later
    ensures FindTerms(s, |pre|) == [t] + later
  {
    RenderedThenSpace(s, pre, t, tail);
    MatchThenSpace(s, |pre|, t, |pre| + |RenderTerm(t)|);
    SameRest(FindTerms(s, |pre|), t, FindTerms(s, |pre| + |RenderTerm(t)| + 1), later);
  }

  /** A first element and a rest, with the rest named another way. */
  lemma SameRest<T>(whole: seq<T>, t: T, rest: seq<T>, later: seq<T>)
    requires whole == [t] + rest && rest == later
    ensures whole == [t] + later
  {
  }

  /** In a text made of a rendered term, a space and more text, the term
      matches at its start and the space follows it. */
  lemma RenderedThenSpace(s: string, pre: string, t: Term, tail: string)
    requires Scannable(t) && s == pre + RenderTerm(t) + (" " + tail)
    ensures MatchAt(s, |pre|) == Some((t, |pre| + |RenderTerm(t)|))
    ensures |pre| + |RenderTerm(t)| < |s| && s[|pre| + |RenderTerm(t)|] == ' '
  {
    SpaceAt(pre + RenderTerm(t), tail);
    MatchRenderedAt(pre, t, " " + tail);
  }

  /** The last term of the text. */
  lemma FindLast(pre: string, t: Term)
    requires Scannable(t)
    ensures FindTerms(pre + RenderTerm(t), |pre|) == [t]
  {
    var s := pre + RenderTerm(t) + "";
    assert pre + RenderTerm(t) == s;
    MatchRenderedAt(pre, t, "");
    FindAfterMatch(s, |pre|);
    assert FindTerms(s, |s|) == [];
    assert [t] + [] == [t];
  }

  /** The two ways the text is put together name the same string. */
  lemma SpacedText(pre: string, head: string, tail: string, whole: string)
    requires whole == head + " " + tail
    ensures pre + whole == pre + head + (" " + tail) == pre + head + " " + tail
    ensures |pre + head + " "| == |pre| + |head| + 1
    ensures (pre + head + (" " + tail))[|pre| + |head|] == ' '
  {
    assert (pre + head + (" " + tail))[|pre| + |head|] == (" " + tail)[0];
  }

  lemma SpaceAt(front: string, tail: string)
    ensures |front| < |front + (" " + tail)| && (front + (" " + tail))[|front|] == ' '
  {
    assert (front + (" " + tail))[|front|] == (" " + tail)[0];
  }

  /** A term matched at `p` and followed by a space: the scan yields it
      and goes on past the space. */
  lemma MatchThenSpace(s: string, p: nat, t: Term, e: nat)
    requires p <= |s| && MatchAt(s, p) == Some((t, e)) && e < |s| && s[e] == ' '
    ensures FindTerms(s, p) == [t] + FindTerms(s, e + 1)
  {
    FindAfterMatch(s, p);
    SkipSpace(s, e);
  }

  /** Scanning terms written out with single spaces between them finds
      exactly those terms, in order. */
  lemma FindTermsRoundTrip(ts: seq<Term>)
    requires forall i :: 0 <= i < |ts| ==> Scannable(ts[i])
    ensures FindTerms(RenderTerms(ts), 0) == ts
  {
    var s := RenderTerms(ts);
    FindRenderedAt("", ts);
    assert "" + s == s && |""| == 0;
  }

  predicate IsBlank(c: char) { c == ' ' }

  predicate AllBlank(s: string) { forall i :: 0 <= i < |s| ==> s[i] == ' ' }

  /** The quote pattern `" *(.+) *"` searched in `"value"`: leading spaces
      are dropped and trailing ones kept (the group is greedy); a value of
      spaces only keeps one space; an empty value does not match, and the
      term is then skipped. */
  function Unquote(value: string): (r: Option<string>)
    ensures r.None? <==> value == ""
    ensures r.Some? && AllBlank(value) ==> r.value == " "
    ensures r.Some? && !AllBlank(value) ==>
      |r.value| > 0 && r.value[0] != ' ' && EndsWith(value, r.value)
      && AllBlank(value[..|value| - |r.value|])
  {
    if |value| == 0 then None
    else
      var t := TrimStart(value, IsBlank);
      if |t| > 0 then Some(t) else Some(" ")
  }

  /** One piece of the comma split: spaces before a following comma and
      after a preceding comma are dropped. */
  function TrimPiece(piece: string, first: bool, last: bool): (r: string)
    ensures ',' !in piece ==> ',' !in r
    ensures !first ==> |r| == 0 || r[0] != ' '
    ensures !last ==> |r| == 0 || r[|r| - 1] != ' '
  {
    var p := if last then piece else TrimEnd(piece, IsBlank);
    var r := if first then p else TrimStart(p, IsBlank);
    assert forall c :: c in r ==> c in p;
    assert forall c :: c in p ==> c in piece;
    assert !last && |r| > 0 ==> r[|r| - 1] == p[|p| - 1];
    r
  }

  /** `re.split(" *, *", group)`: the pieces between commas, each without
      the spaces next to a comma. */
  function SplitValues(group: string): (r: seq<string>)
    ensures |r| == CountChar(group, ',') + 1
  {
    SplitCount(group, ',');
    TrimPieces(Split(group, ','))
  }

  /** Each value of a split holds no comma, and no space where it met
      one. */
  lemma SplitValuesTrimmed(group: string, i: nat)
    requires i < |SplitValues(group)|
    ensures ',' !in SplitValues(group)[i]
    ensures i > 0 ==> |SplitValues(group)[i]| == 0 || SplitValues(group)[i][0] != ' '
    ensures i < |SplitValues(group)| - 1 ==>
      |SplitValues(group)[i]| == 0 || SplitValues(group)[i][|SplitValues(group)[i]| - 1] != ' '
  {
    var pieces := Split(group, ',');
    SplitValuesPiece(group, i);
    assert ',' !in pieces[i];
  }

  /** Every piece trimmed where it meets a comma. */
  function TrimPieces(pieces: seq<string>): (r: seq<string>)
    ensures |r| == |pieces|
    ensures forall i :: 0 <= i < |r| ==> r[i] == TrimPiece(pieces[i], i == 0, i == |pieces| - 1)
  {
    seq(|pieces|, i requires 0 <= i < |pieces| => TrimPiece(pieces[i], i == 0, i == |pieces| - 1))
  }

  /** Values joined with ", ", the way a user writes an OR-group. */
  function RenderValues(values: seq<string>): string
    requires |values| >= 1
  {
    Join(',', [values[0]] + Spaced(values[1..]))
  }

  function Spaced(values: seq<string>): (r: seq<string>)
    ensures |r| == |values|
    ensures forall i :: 0 <= i < |values| ==> r[i] == " " + values[i]
  {
    seq(|values|, i requires 0 <= i < |values| => " " + values[i])
  }

  /** A value a user can write inside an OR-group and get back whole. */
  predicate PlainValue(v: string) {
    ',' !in v && (|v| == 0 || (v[0] != ' ' && v[|v| - 1] != ' '))
  }

  /** Splitting values written with ", " gives the values back. */
  lemma SplitValuesRoundTrip(values: seq<string>)
    requires |values| >= 1
    requires forall i :: 0 <= i < |values| ==> PlainValue(values[i])
    ensures SplitValues(RenderValues(values)) == values
  {
    var group := RenderValues(values);
    SplitRendered(values);
    var r := SplitValues(group);
    forall i | 0 <= i < |values| ensures r[i] == values[i] {
      PieceBack(values, group, i);
    }
  }

  /** The commas of the rendered text are exactly the separators. */
  lemma SplitRendered(values: seq<string>)
    requires |values| >= 1
    requires forall i :: 0 <= i < |values| ==> PlainValue(values[i])
    ensures Split(RenderValues(values), ',') == [values[0]] + Spaced(values[1..])
  {
    var parts := [values[0]] + Spaced(values[1..]);
    forall i | 0 <= i < |parts| ensures ',' !in parts[i] {
      if i > 0 {
        assert parts[i] == " " + values[i];
      }
    }
    SplitJoin(parts, ',');
  }

  /** Trimming a rendered piece gives its value back. */
  lemma PieceBack(values: seq<string>, group: string, i: nat)
    requires i < |values| && PlainValue(values[i])
    requires Split(group, ',') == [values[0]] + Spaced(values[1..])
    ensures i < |SplitValues(group)| && SplitValues(group)[i] == values[i]
  {
    var pieces := Split(group, ',');
    var last := i == |pieces| - 1;
    SplitValuesPiece(group, i);
    if i > 0 {
      assert pieces[i] == " " + values[i] by {
        assert pieces[i] == Spaced(values[1..])[i - 1];
      }
      PieceRoundTrip(values[i], last);
    } else {
      FirstPieceRoundTrip(values[0], last);
    }
  }

  /** Piece i of the split is the i-th comma-separated piece, trimmed. */
  lemma SplitValuesPiece(group: string, i: nat)
    requires i < |Split(group, ',')|
    ensures var pieces := Split(group, ',');
      |SplitValues(group)| == |pieces|
      && SplitValues(group)[i] == TrimPiece(pieces[i], i == 0, i == |pieces| - 1)
  {
  }

  lemma FirstPieceRoundTrip(v: string, last: bool)
    requires PlainValue(v)
    ensures TrimPiece(v, true, last) == v
  {
    if |v| > 0 {
      assert v[|v| - 1] != ' ';
      assert TrimEnd(v, IsBlank) == v;
    }
  }

  lemma PieceRoundTrip(v: string, last: bool)
    requires PlainValue(v)
    ensures TrimPiece(" " + v, false, last) == v
  {
    var s := " " + v;
    assert s[1..] == v;
    var p := if last then s else TrimEnd(s, IsBlank);
    assert TrimPiece(s, false, last) == TrimStart(p, IsBlank);
    if |v| == 0 {
      assert TrimStart(s, IsBlank) == TrimStart(v, IsBlank);
    } else {
      assert s[|s| - 1] == v[|v| - 1];
      assert p == s;
      assert TrimStart(s, IsBlank) == TrimStart(v, IsBlank);
    }
  }

  /** A term after the first pass over the terms: whether it excludes, its
      key without the `-`, and its values. */
  datatype Condition = Condition(exclude: bool, key: string, values: seq<string>)

  /** The key a term adds to the JOIN keys: its key without a leading `-`. */
  function BareKey(key: string): (r: string)
    ensures StartsWith(key, "-") ==> key == "-" + r
    ensures !StartsWith(key, "-") ==> r == key
  {
    if |key| > 0 && key[0] == '-' then key[1..] else key
  }

  /** One term of the first pass: a `:` in the value makes the unpacking of
      the split raise ValueError; an empty value is skipped; a key starting
      with `-` excludes. */
  function TermGroup(t: Term): (r: Result<Option<Condition>, Failure>)
    ensures r.Err? <==> ':' in t.value
    ensures r == Ok(None) <==> ':' !in t.value && t.value == ""
    ensures r.Ok? && r.value.Some? ==>
      var g := r.value.value;
      |g.values| >= 1 && g.key == BareKey(t.key) && (g.exclude <==> StartsWith(t.key, "-"))
  {
    if ':' in t.value then Err(ValueError)
    else
      match Unquote(t.value)
      case None => Ok(None)
      case Some(group) =>
        Ok(Some(Condition(StartsWith(t.key, "-"), BareKey(t.key), SplitValues(group))))
  }

  predicate HasValues(gs: seq<Condition>) { forall i :: 0 <= i < |gs| ==> |gs[i].values| >= 1 }

  function TypeKeys(gs: seq<Condition>): set<string> {
    set i | 0 <= i < |gs| :: gs[i].key
  }

  /** Some term with a non-empty value has bare key `k`. */
  predicate KeyedBy(ts: seq<Term>, k: string) {
    exists i :: 0 <= i < |ts| && ts[i].value != "" && BareKey(ts[i].key) == k
  }

  /** Some term's value holds a `:`. */
  predicate HasColon(ts: seq<Term>) {
    exists i :: 0 <= i < |ts| && ':' in ts[i].value
  }

  lemma ColonCons(ts: seq<Term>)
    requires |ts| >= 1
    ensures HasColon(ts) <==> ':' in ts[0].value || HasColon(ts[1..])
  {
    if HasColon(ts[1..]) {
      var i :| 0 <= i < |ts[1..]| && ':' in ts[1..][i].value;
      assert ts[i + 1] == ts[1..][i];
    }
    if HasColon(ts) && ':' !in ts[0].value {
      var i :| 0 <= i < |ts| && ':' in ts[i].value;
      assert ts[1..][i - 1] == ts[i];
    }
  }

  lemma KeyedByCons(ts: seq<Term>, k: string)
    requires |ts| >= 1
    ensures KeyedBy(ts, k) <==> (ts[0].value != "" && BareKey(ts[0].key) == k) || KeyedBy(ts[1..], k)
  {
    if KeyedBy(ts[1..], k) {
      var i :| 0 <= i < |ts[1..]| && ts[1..][i].value != "" && BareKey(ts[1..][i].key) == k;
      assert ts[i + 1] == ts[1..][i];
    }
    if KeyedBy(ts, k) && !(ts[0].value != "" && BareKey(ts[0].key) == k) {
      var i :| 0 <= i < |ts| && ts[i].value != "" && BareKey(ts[i].key) == k;
      assert ts[1..][i - 1] == ts[i];
    }
  }

  lemma TypeKeysCons(g: Option<Condition>, rest: seq<Condition>)
    ensures TypeKeys((if g.Some? then [g.value] else []) + rest)
      == (if g.Some? then {g.value.key} else {}) + TypeKeys(rest)
  {
    var gs := (if g.Some? then [g.value] else []) + rest;
    var d := |gs| - |rest|;
    assert forall j :: 0 <= j < |rest| ==> gs[d + j] == rest[j];
    forall k | k in TypeKeys(gs) ensures k in (if g.Some? then {g.value.key} else {}) + TypeKeys(rest) {
      var i :| 0 <= i < |gs| && gs[i].key == k;
      if i >= d {
        assert rest[i - d] == gs[i];
      }
    }
    forall k | k in TypeKeys(rest) ensures k in TypeKeys(gs) {
      var j :| 0 <= j < |rest| && rest[j].key == k;
      assert gs[d + j] == rest[j];
    }
    if g.Some? {
      assert gs[0] == g.value;
    }
  }

  /** The first pass over the terms: every term with a value becomes a
      condition, in term order; a `:` in any value fails the whole clause,
      and every term with a value adds its bare key to the JOIN keys. */
  function Groups(ts: seq<Term>): (r: Result<seq<Condition>, Failure>)
    ensures r.Err? <==> HasColon(ts)
    ensures r.Ok? ==> HasValues(r.value) && |r.value| <= |ts|
    ensures r.Ok? ==> forall k :: k in TypeKeys(r.value) <==> KeyedBy(ts, k)
    decreases |ts|
  {
    if |ts| == 0 then Ok([])
    else
      ColonCons(ts);
      match TermGroup(ts[0])
      case Err(e) => Err(e)
      case Ok(g) =>
        match Groups(ts[1..])
        case Err(e) => Err(e)
        case Ok(rest) =>
          var gs := (if g.Some? then [g.value] else []) + rest;
          TypeKeysCons(g, rest);
          assert forall k :: KeyedBy(ts, k) <==> (ts[0].value != "" && BareKey(ts[0].key) == k) || KeyedBy(ts[1..], k) by {
            forall k ensures KeyedBy(ts, k) <==> (ts[0].value != "" && BareKey(ts[0].key) == k) || KeyedBy(ts[1..], k) {
              KeyedByCons(ts, k);
            }
          }
          Ok(gs)
  }

  /** The OR-group `col comp ? OR col comp ? …` for `n` values. */
  function OrQuery(column: string, comp: string, n: nat): string
    requires n >= 1
  {
    if n == 1 then column + comp + "?" else OrQuery(column, comp, n - 1) + " OR " + column + comp + "?"
  }

  /** An OR-group holds one placeholder per value. */
  lemma {:induction false} OrQueryPlaceholders(column: string, comp: string, n: nat)
    requires n >= 1 && '?' !in column && '?' !in comp
    ensures CountChar(OrQuery(column, comp, n), '?') == n
  {
    CountCharAbsent(column, '?');
    CountCharAbsent(comp, '?');
    CountCharConcat(column, comp, '?');
    CountCharConcat(column + comp, "?", '?');
    if n > 1 {
      OrQueryPlaceholders(column, comp, n - 1);
      CountCharAbsent(" OR ", '?');
      CountCharConcat(OrQuery(column, comp, n - 1), " OR ", '?');
      CountCharConcat(OrQuery(column, comp, n - 1) + " OR ", column, '?');
      CountCharConcat(OrQuery(column, comp, n - 1) + " OR " + column, comp, '?');
      CountCharConcat(OrQuery(column, comp, n - 1) + " OR " + column + comp, "?", '?');
    }
  }

  /** The include (`exclude` false) or exclude WHERE text of the groups,
      built as the source's loop builds it, and their bind values: groups
      of the other kind and groups whose key names no column are skipped. */
  function Logic(gs: seq<Condition>, exclude: bool, comp: string): (string, seq<string>)
    requires HasValues(gs)
    decreases |gs|
  {
    if |gs| == 0 then ("", [])
    else
      var prev := Logic(gs[..|gs| - 1], exclude, comp);
      var g := gs[|gs| - 1];
      if g.exclude != exclude || g.key !in WhereMapping then prev
      else
        var group := "(" + OrQuery(WhereMapping[g.key], comp, |g.values|) + ")";
        (if prev.0 == "" then group else prev.0 + " AND " + group, prev.1 + g.values)
  }

  /** Whether a group contributes to the WHERE text of the given kind. */
  predicate Selected(g: Condition, exclude: bool) {
    g.exclude == exclude && g.key in WhereMapping
  }

  /** The bind values of one kind, read off the groups front to back. */
  function SelectedValues(gs: seq<Condition>, exclude: bool): seq<string>
    decreases |gs|
  {
    if |gs| == 0 then []
    else (if Selected(gs[0], exclude) then gs[0].values else []) + SelectedValues(gs[1..], exclude)
  }

  lemma {:induction false} SelectedValuesSnoc(gs: seq<Condition>, exclude: bool)
    requires |gs| >= 1
    ensures SelectedValues(gs, exclude)
      == SelectedValues(gs[..|gs| - 1], exclude)
      + (if Selected(gs[|gs| - 1], exclude) then gs[|gs| - 1].values else [])
    decreases |gs|
  {
    if |gs| > 1 {
      var t := gs[1..];
      var init := gs[..|gs| - 1];
      SelectedValuesSnoc(t, exclude);
      assert t[..|t| - 1] == init[1..] && t[|t| - 1] == gs[|gs| - 1];
      assert init[0] == gs[0];
      ConcatAssoc(if Selected(gs[0], exclude) then gs[0].values else [],
        SelectedValues(init[1..], exclude),
        if Selected(gs[|gs| - 1], exclude) then gs[|gs| - 1].values else []);
    }
  }

  /** The bind values are the values of the selected groups in order:
      front to back, exactly as the groups came from the terms. */
  lemma {:induction false} LogicBinds(gs: seq<Condition>, exclude: bool, comp: string)
    requires HasValues(gs)
    ensures Logic(gs, exclude, comp).1 == SelectedValues(gs, exclude)
    decreases |gs|
  {
    if |gs| > 0 {
      LogicBinds(gs[..|gs| - 1], exclude, comp);
      SelectedValuesSnoc(gs, exclude);
    }
  }

  /** The WHERE text is empty exactly when no group was selected, and it
      holds one placeholder per bind value. */
  lemma {:induction false} LogicPlaceholders(gs: seq<Condition>, exclude: bool, comp: string)
    requires HasValues(gs) && '?' !in comp
    ensures Logic(gs, exclude, comp).0 == "" <==> Logic(gs, exclude, comp).1 == []
    ensures CountChar(Logic(gs, exclude, comp).0, '?') == |Logic(gs, exclude, comp).1|
    decreases |gs|
  {
    if |gs| > 0 {
      var prev := Logic(gs[..|gs| - 1], exclude, comp);
      LogicPlaceholders(gs[..|gs| - 1], exclude, comp);
      var g := gs[|gs| - 1];
      if Selected(g, exclude) {
        var column := WhereMapping[g.key];
        ColumnHasNoPlaceholder(g.key);
        var group := "(" + OrQuery(column, comp, |g.values|) + ")";
        GroupPlaceholders(column, comp, |g.values|);
        if prev.0 != "" {
          AndPlaceholders(prev.0, group);
        }
      }
    }
  }

  lemma ColumnHasNoPlaceholder(key: string)
    requires key in WhereMapping
    ensures '?' !in WhereMapping[key]
  {
    MappingsShareKeys();
    WhereHasNoPlaceholder(CategoryOf(key).value);
  }

  /** A parenthesised OR-group holds one placeholder per value. */
  lemma GroupPlaceholders(column: string, comp: string, n: nat)
    requires '?' !in column && '?' !in comp && n >= 1
    ensures CountChar("(" + OrQuery(column, comp, n) + ")", '?') == n
  {
    var q := OrQuery(column, comp, n);
    OrQueryPlaceholders(column, comp, n);
    CountCharConcat("(", q, '?');
    CountCharConcat("(" + q, ")", '?');
  }

  /** `" AND "` adds no placeholder. */
  lemma AndPlaceholders(prev: string, group: string)
    ensures CountChar(prev + " AND " + group, '?') == CountChar(prev, '?') + CountChar(group, '?')
  {
    CountCharConcat(prev, " AND ", '?');
    CountCharConcat(prev + " AND ", group, '?');
    assert CountChar(" AND ", '?') == 0;
  }

  /** The outcome of `_parse_filter_clause`: the include and exclude WHERE
      texts, the bind values and the keys for an automatic JOIN. */
  datatype Clause = Clause(includeLogic: string, excludeLogic: string, binds: seq<string>, typeKeys: set<string>)

  /** `_parse_filter_clause` over the terms the term pattern finds. */
  function ParseFilterClause(filter: string, comp: string): (r: Result<Clause, Failure>)
    ensures r.Err? <==> HasColon(FindTerms(filter, 0))
    ensures r.Ok? ==> forall k :: k in r.value.typeKeys <==> KeyedBy(FindTerms(filter, 0), k)
  {
    match Groups(FindTerms(filter, 0))
    case Err(e) => Err(e)
    case Ok(gs) =>
      var inc := Logic(gs, false, comp);
      var exc := Logic(gs, true, comp);
      Ok(Clause(inc.0, exc.0, inc.1 + exc.1, TypeKeys(gs)))
  }

  /** The bind values are the include values in term order followed by the
      exclude values in term order, and there is one placeholder for each. */
  lemma ClauseBinds(filter: string, comp: string)
    requires '?' !in comp
    requires ParseFilterClause(filter, comp).Ok?
    ensures var c := ParseFilterClause(filter, comp).value;
      var gs := Groups(FindTerms(filter, 0)).value;
      c.binds == SelectedValues(gs, false) + SelectedValues(gs, true)
      && CountChar(c.includeLogic, '?') + CountChar(c.excludeLogic, '?') == |c.binds|
      && (c.includeLogic == "" <==> SelectedValues(gs, false) == [])
      && (c.excludeLogic == "" <==> SelectedValues(gs, true) == [])
  {
    var gs := Groups(FindTerms(filter, 0)).value;
    LogicBinds(gs, false, comp);
    LogicBinds(gs, true, comp);
    LogicPlaceholders(gs, false, comp);
    LogicPlaceholders(gs, true, comp);
  }

  /** The `select` argument of `get`: one column name (`"*"` for all), or a
      list of column names. */
  datatype Select = SelectText(text: string) | SelectList(names: seq<string>)

  /** The `join` argument of `get`: `""`, `"*"`, `"auto"` or one key, or a
      list of keys. */
  datatype JoinArg = JoinText(text: string) | JoinList(keys: seq<string>)

  /** What `get` does: queue a query (with bind values when a filter was
      given) and return True, or queue nothing and return False. */
  datatype Outcome = Queued(paragraphs: seq<string>, binds: Option<seq<string>>) | Declined

  /** `'","'.join(names)` */
  function CommaQuoted(names: seq<string>): string
    decreases |names|
  {
    if |names| == 0 then ""
    else if |names| == 1 then names[0]
    else names[0] + "\",\"" + CommaQuoted(names[1..])
  }

  function SelectSql(select: Select): string {
    match select
    case SelectText(column) =>
      if column == "*" then "SELECT DISTINCT * FROM " + Quote("Galleries")
      else "SELECT DISTINCT " + Quote(column) + " FROM " + Quote("Galleries")
    case SelectList(names) => "SELECT DISTINCT " + Quote(CommaQuoted(names)) + " FROM " + Quote("Galleries")
  }

  /** The JOIN text of the listed keys, concatenated in order; a key missing
      from `JOIN_MAPPING` raises KeyError. */
  function JoinsFor(keys: seq<string>): (r: Result<string, Failure>)
    ensures r.Err? <==> exists i :: 0 <= i < |keys| && keys[i] !in JoinMapping
    decreases |keys|
  {
    if |keys| == 0 then Ok("")
    else if keys[0] !in JoinMapping then Err(KeyError)
    else
      match JoinsFor(keys[1..])
      case Err(e) =>
        assert forall i :: 0 <= i < |keys[1..]| ==> keys[1..][i] == keys[i + 1];
        Err(e)
      case Ok(rest) =>
        assert forall i :: 0 < i < |keys| ==> keys[i] == keys[1..][i - 1];
        Ok(JoinSql(JoinMapping[keys[0]]) + rest)
  }

  /** The keys of `JOIN_MAPPING`, each once, in the mapping's own order:
      the i-th key reads back as the i-th category. */
  function AllKeys(): (r: seq<string>)
    ensures forall k :: k in r <==> k in JoinMapping
    ensures forall i, j :: 0 <= i < j < |r| ==> r[i] != r[j]
    ensures |r| == |Categories| && forall i :: 0 <= i < |r| ==> CategoryOf(r[i]) == Some(Categories[i])
  {
    var r := seq(|Categories|, i requires 0 <= i < |Categories| => Key(Categories[i]));
    CategoryKeys(r);
    r
  }

  /** The keys of the categories, in order, are the keys of `JOIN_MAPPING`,
      each once. */
  lemma CategoryKeys(r: seq<string>)
    requires |r| == |Categories| && forall i :: 0 <= i < |r| ==> r[i] == Key(Categories[i])
    ensures forall k :: k in r <==> k in JoinMapping
    ensures forall i, j :: 0 <= i < j < |r| ==> r[i] != r[j]
    ensures forall i :: 0 <= i < |r| ==> CategoryOf(r[i]) == Some(Categories[i])
  {
    forall i | 0 <= i < |r| ensures CategoryOf(r[i]) == Some(Categories[i]) && r[i] in JoinMapping {
      KeyRoundTrip(Categories[i]);
      CategoriesComplete(Categories[i]);
    }
    forall i, j | 0 <= i < j < |r| ensures r[i] != r[j] {
      assert CategoryOf(r[i]) == Some(Categories[i]) && CategoryOf(r[j]) == Some(Categories[j]);
    }
    MappingsShareKeys();
    forall k | k in JoinMapping ensures k in r {
      var c := CategoryOf(k).value;
      CategoriesComplete(c);
      var i :| 0 <= i < |Categories| && Categories[i] == c;
      assert r[i] == k;
    }
  }

  /** The keys of `JOIN_MAPPING`, in its order, that are in `keys`. */
  function KeysAmong(cs: seq<Category>, keys: set<string>): (r: seq<string>)
    ensures forall i :: 0 <= i < |r| ==> r[i] in keys && r[i] in JoinMapping
    ensures forall c :: c in cs && Key(c) in keys ==> Key(c) in r
    decreases |cs|
  {
    if |cs| == 0 then []
    else
      CategoriesComplete(cs[0]);
      var rest := KeysAmong(cs[1..], keys);
      assert forall c :: c in cs ==> c == cs[0] || c in cs[1..];
      if Key(cs[0]) in keys then [Key(cs[0])] + rest else rest
  }

  /** The JOIN text for `join` when no filter is given. */
  function UnfilteredJoin(join: JoinArg): Result<string, Failure> {
    match join
    case JoinText(t) =>
      if t == "" then Ok("")
      else if t == "*" || t == "auto" then JoinsFor(AllKeys())
      else JoinsFor([t])
    case JoinList(keys) => JoinsFor(keys)
  }

  /** The JOIN text for `join` next to a filter; `"auto"` joins the tables
      of the filter's keys, and fails on a key `JOIN_MAPPING` lacks. The
      source iterates over a set, whose order Python leaves unspecified; the
      model takes `JOIN_MAPPING`'s order. */
  function FilteredJoin(join: JoinArg, typeKeys: set<string>): Result<string, Failure> {
    match join
    case JoinText(t) =>
      if t == "" then Ok("")
      else if t == "*" then JoinsFor(AllKeys())
      else if t == "auto" then
        if exists k :: k in typeKeys && k !in JoinMapping then Err(KeyError)
        else JoinsFor(KeysAmong(Categories, typeKeys))
      else JoinsFor([t])
    case JoinList(keys) => JoinsFor(keys)
  }

  /** `join` names a key `JOIN_MAPPING` lacks. */
  predicate UnknownJoin(join: JoinArg) {
    match join
    case JoinText(t) => t != "" && t != "*" && t != "auto" && t !in JoinMapping
    case JoinList(keys) => exists i :: 0 <= i < |keys| && keys[i] !in JoinMapping
  }

  function LimitSql(limit: int, offset: int): (r: string)
    ensures r != "" <==> limit != 0
    ensures limit != 0 ==> StartsWith(r, "LIMIT ")
  {
    if limit != 0 then "LIMIT " + IntToString(limit) + " OFFSET " + IntToString(offset) else ""
  }

  /** `"\n\n".join(parts)` */
  function Paragraphs(parts: seq<string>): string
    decreases |parts|
  {
    if |parts| == 0 then ""
    else if |parts| == 1 then parts[0]
    else parts[0] + "\n\n" + Paragraphs(parts[1..])
  }

  const NotInOpen: string := Quote("gallery_database_id") + " NOT IN ("
  const SubSelect: string := "SELECT " + Quote("gallery_database_id") + " FROM " + Quote("Galleries")

  /** The statement's paragraphs for the three filtered shapes. Without an
      include text there is no outer JOIN, only the NOT IN subquery. */
  function FilteredParts(select: string, join: string, inc: string, exc: string, limit: string): seq<string> {
    if inc != "" && exc != "" then
      [select, join, "WHERE", inc, "AND " + NotInOpen, SubSelect, join, "WHERE", exc, ")", limit]
    else if inc != "" then
      [select, join, "WHERE", inc, limit]
    else
      [select, "WHERE", NotInOpen, SubSelect, join, "WHERE", exc, ")", limit]
  }

  function Comparison(like: bool): string {
    if like then " LIKE " else "="
  }

  /** `get`: the statement queued for the arguments, as the paragraphs the
      source joins with blank lines, or False when the filter names no
      known column, or the exception raised. `like` is the `compare_like`
      preference. */
  function Get(select: Select, join: JoinArg, filter: string, limit: int, offset: int, like: bool): Result<Outcome, Failure> {
    if filter == "" then GetUnfiltered(select, join, limit, offset)
    else GetFiltered(select, join, filter, limit, offset, Comparison(like))
  }

  function GetUnfiltered(select: Select, join: JoinArg, limit: int, offset: int): Result<Outcome, Failure> {
    match UnfilteredJoin(join)
    case Err(e) => Err(e)
    case Ok(j) => Ok(Queued([SelectSql(select), j, LimitSql(limit, offset)], None))
  }

  function GetFiltered(select: Select, join: JoinArg, filter: string, limit: int, offset: int, comp: string): Result<Outcome, Failure> {
    match ParseFilterClause(filter, comp)
    case Err(e) => Err(e)
    case Ok(c) =>
      match FilteredJoin(join, c.typeKeys)
      case Err(e) => Err(e)
      case Ok(j) =>
        if c.includeLogic == "" && c.excludeLogic == "" then Ok(Declined)
        else Ok(Queued(FilteredParts(SelectSql(select), j, c.includeLogic, c.excludeLogic, LimitSql(limit, offset)), Some(c.binds)))
  }

  /** No `?` in the caller's column names. */
  predicate SelectFree(select: Select) {
    match select
    case SelectText(t) => '?' !in t
    case SelectList(names) => forall i :: 0 <= i < |names| ==> '?' !in names[i]
  }

  lemma {:induction false} CommaQuotedFree(names: seq<string>)
    requires forall i :: 0 <= i < |names| ==> '?' !in names[i]
    ensures '?' !in CommaQuoted(names)
    decreases |names|
  {
    if |names| > 1 {
      CommaQuotedFree(names[1..]);
    }
  }

  lemma SelectSqlFree(select: Select)
    requires SelectFree(select)
    ensures '?' !in SelectSql(select)
  {
    match select
    case SelectText(t) =>
      QuoteFree(t);
      QuoteFree("Galleries");
    case SelectList(names) =>
      CommaQuotedFree(names);
      QuoteFree(CommaQuoted(names));
      QuoteFree("Galleries");
  }

  /** The JOIN text never holds a placeholder. */
  lemma {:induction false} JoinsForFree(keys: seq<string>)
    requires JoinsFor(keys).Ok?
    ensures '?' !in JoinsFor(keys).value
    decreases |keys|
  {
    if |keys| > 0 {
      MappingsShareKeys();
      JoinHasNoPlaceholder(CategoryOf(keys[0]).value);
      JoinsForFree(keys[1..]);
    }
  }

  lemma LimitSqlFree(limit: int, offset: int)
    ensures '?' !in LimitSql(limit, offset)
  {
    var a := IntToString(limit);
    var b := IntToString(offset);
    assert forall k :: 0 <= k < |a| ==> a[k] != '?';
    assert forall k :: 0 <= k < |b| ==> b[k] != '?';
  }

  /** Placeholders in all paragraphs together. */
  function CountAll(parts: seq<string>): nat
    decreases |parts|
  {
    if |parts| == 0 then 0 else CountChar(parts[0], '?') + CountAll(parts[1..])
  }

  lemma {:induction false} ParagraphsCount(parts: seq<string>)
    ensures CountChar(Paragraphs(parts), '?') == CountAll(parts)
    decreases |parts|
  {
    if |parts| == 1 {
      assert CountAll(parts[1..]) == 0;
    } else if |parts| > 1 {
      ParagraphsCount(parts[1..]);
      CountCharAbsent("\n\n", '?');
      CountCharConcat(parts[0], "\n\n", '?');
      CountCharConcat(parts[0] + "\n\n", Paragraphs(parts[1..]), '?');
    }
  }

  /** The paragraphs other than `i` and `j` hold no placeholder, so the
      count is theirs alone (`i == j` counts one paragraph). */
  lemma {:induction false} CountAllHoles(parts: seq<string>, i: nat, j: nat)
    requires i < |parts| && j < |parts|
    requires forall k :: 0 <= k < |parts| && k != i && k != j ==> '?' !in parts[k]
    ensures CountAll(parts) == CountChar(parts[i], '?') + (if i == j then 0 else CountChar(parts[j], '?'))
    decreases |parts|
  {
    var t := parts[1..];
    assert forall k :: 0 < k < |parts| ==> t[k - 1] == parts[k];
    if i == 0 && j == 0 {
      CountAllFree(t);
    } else if i == 0 {
      CountAllHoles(t, j - 1, j - 1);
    } else if j == 0 {
      CountAllHoles(t, i - 1, i - 1);
    } else {
      CountCharAbsent(parts[0], '?');
      CountAllHoles(t, i - 1, j - 1);
    }
  }

  lemma {:induction false} CountAllFree(parts: seq<string>)
    requires forall k :: 0 <= k < |parts| ==> '?' !in parts[k]
    ensures CountAll(parts) == 0
    decreases |parts|
  {
    if |parts| > 0 {
      CountCharAbsent(parts[0], '?');
      assert forall k :: 0 < k < |parts| ==> parts[1..][k - 1] == parts[k];
      CountAllFree(parts[1..]);
    }
  }

  lemma AllKeysJoin()
    ensures JoinsFor(AllKeys()).Ok?
  {
    forall i | 0 <= i < |AllKeys()| ensures AllKeys()[i] in JoinMapping {
      CategoriesComplete(Categories[i]);
    }
  }

  lemma SingleJoin(t: string)
    ensures JoinsFor([t]).Err? <==> t !in JoinMapping
  {
    assert [t][0] == t;
    assert forall i :: 0 <= i < |[t]| ==> [t][i] == t;
  }

  lemma UnfilteredJoinFails(join: JoinArg)
    ensures UnfilteredJoin(join).Err? <==> UnknownJoin(join)
  {
    match join
    case JoinText(t) =>
      if t == "*" || t == "auto" {
        AllKeysJoin();
      } else if t != "" {
        SingleJoin(t);
      }
    case JoinList(keys) =>
  }

  /** Without a filter, `get` always queues a statement without bind values
      and returns True, unless `join` names a key `JOIN_MAPPING` lacks. */
  lemma GetWithoutFilter(select: Select, join: JoinArg, limit: int, offset: int, like: bool)
    ensures var r := Get(select, join, "", limit, offset, like);
      (r.Err? <==> UnknownJoin(join)) && (r.Ok? ==> r.value.Queued? && r.value.binds.None?)
  {
    UnfilteredJoinFails(join);
  }

  /** Some term with a value names one of the eight columns. */
  predicate Recognised(ts: seq<Term>) {
    exists i :: 0 <= i < |ts| && ts[i].value != "" && BareKey(ts[i].key) in WhereMapping
  }

  lemma NoSelectedValues(gs: seq<Condition>, exclude: bool)
    requires HasValues(gs)
    ensures SelectedValues(gs, exclude) == [] <==> forall i :: 0 <= i < |gs| ==> !Selected(gs[i], exclude)
    decreases |gs|
  {
    if |gs| > 0 {
      NoSelectedValues(gs[1..], exclude);
      assert forall i :: 0 < i < |gs| ==> gs[1..][i - 1] == gs[i];
    }
  }

  /** A non-empty filter with no term naming a known column makes `get`
      return False and queue nothing; with one, it queues a statement. */
  lemma GetDeclines(select: Select, join: JoinArg, filter: string, limit: int, offset: int, like: bool)
    requires filter != ""
    requires ParseFilterClause(filter, Comparison(like)).Ok?
    requires FilteredJoin(join, ParseFilterClause(filter, Comparison(like)).value.typeKeys).Ok?
    ensures Get(select, join, filter, limit, offset, like) == Ok(Declined) <==> !Recognised(FindTerms(filter, 0))
    ensures Get(select, join, filter, limit, offset, like) != Ok(Declined) ==>
      Get(select, join, filter, limit, offset, like).value.Queued?
  {
    var comp := Comparison(like);
    var c := ParseFilterClause(filter, comp).value;
    var r := Get(select, join, filter, limit, offset, like);
    DeclinedWhenEmpty(select, join, filter, limit, offset, comp);
    EmptyUnlessRecognised(filter, comp);
    ChainDecline(r, GetFiltered(select, join, filter, limit, offset, comp),
      c.includeLogic == "" && c.excludeLogic == "", !Recognised(FindTerms(filter, 0)));
  }

  /** Links the two equivalences that make up `GetDeclines`. */
  lemma ChainDecline(r: Result<Outcome, Failure>, g: Result<Outcome, Failure>, empty: bool, unknown: bool)
    requires r == g
    requires (g == Ok(Declined) <==> empty) && (g != Ok(Declined) ==> g.Ok? && g.value.Queued?)
    requires empty <==> unknown
    ensures r == Ok(Declined) <==> unknown
    ensures r != Ok(Declined) ==> r.value.Queued?
  {
  }

  /** A filtered `get` declines exactly when both WHERE texts are empty. */
  lemma DeclinedWhenEmpty(select: Select, join: JoinArg, filter: string, limit: int, offset: int, comp: string)
    requires ParseFilterClause(filter, comp).Ok?
    requires FilteredJoin(join, ParseFilterClause(filter, comp).value.typeKeys).Ok?
    ensures var c := ParseFilterClause(filter, comp).value;
      var r := GetFiltered(select, join, filter, limit, offset, comp);
      (r == Ok(Declined) <==> c.includeLogic == "" && c.excludeLogic == "")
      && (r != Ok(Declined) ==> r.Ok? && r.value.Queued?)
  {
  }

  /** Both WHERE texts are empty exactly when no term with a value names
      one of the eight columns. */
  lemma EmptyUnlessRecognised(filter: string, comp: string)
    requires '?' !in comp
    requires ParseFilterClause(filter, comp).Ok?
    ensures var c := ParseFilterClause(filter, comp).value;
      c.includeLogic == "" && c.excludeLogic == "" <==> !Recognised(FindTerms(filter, 0))
  {
    var ts := FindTerms(filter, 0);
    var gs := Groups(ts).value;
    ClauseBinds(filter, comp);
    NoSelectedValues(gs, false);
    NoSelectedValues(gs, true);
    SelectionIsRecognition(ts, gs, ParseFilterClause(filter, comp).value.typeKeys);
  }

  /** Some group is selected for its own kind exactly when some term with a
      value names one of the eight columns. */
  lemma SelectionIsRecognition(ts: seq<Term>, gs: seq<Condition>, keys: set<string>)
    requires keys == TypeKeys(gs)
    requires forall k :: k in keys <==> KeyedBy(ts, k)
    ensures (exists j :: 0 <= j < |gs| && Selected(gs[j], gs[j].exclude)) <==> Recognised(ts)
  {
    if Recognised(ts) {
      var i :| 0 <= i < |ts| && ts[i].value != "" && BareKey(ts[i].key) in WhereMapping;
      var k := BareKey(ts[i].key);
      assert KeyedBy(ts, k);
      assert k in TypeKeys(gs);
      var j :| 0 <= j < |gs| && gs[j].key == k;
      assert Selected(gs[j], gs[j].exclude);
    }
    if exists j :: 0 <= j < |gs| && Selected(gs[j], gs[j].exclude) {
      var j :| 0 <= j < |gs| && Selected(gs[j], gs[j].exclude);
      assert gs[j].key in TypeKeys(gs);
      var i :| 0 <= i < |ts| && ts[i].value != "" && BareKey(ts[i].key) == gs[j].key;
    }
  }

  /** With `join="auto"`, a filter term whose key `JOIN_MAPPING` lacks
      raises KeyError, even though the term adds nothing to the WHERE text. */
  lemma GetAutoUnknownKey(select: Select, filter: string, limit: int, offset: int, like: bool, i: nat)
    requires filter != ""
    requires !HasColon(FindTerms(filter, 0))
    requires i < |FindTerms(filter, 0)|
    requires FindTerms(filter, 0)[i].value != "" && BareKey(FindTerms(filter, 0)[i].key) !in JoinMapping
    ensures Get(select, JoinText("auto"), filter, limit, offset, like) == Err(KeyError)
  {
    var ts := FindTerms(filter, 0);
    assert KeyedBy(ts, BareKey(ts[i].key));
  }

  /** A statement queued with bind values holds one placeholder per bind
      value. */
  lemma GetPlaceholders(select: Select, join: JoinArg, filter: string, limit: int, offset: int, like: bool)
    requires SelectFree(select)
    requires Get(select, join, filter, limit, offset, like).Ok?
    requires Get(select, join, filter, limit, offset, like).value.Queued?
    ensures var q := Get(select, join, filter, limit, offset, like).value;
      q.binds.Some? ==> CountChar(Paragraphs(q.paragraphs), '?') == |q.binds.value|
  {
    if filter != "" {
      FilteredPlaceholders(select, join, filter, limit, offset, Comparison(like));
    }
  }

  lemma FilteredPlaceholders(select: Select, join: JoinArg, filter: string, limit: int, offset: int, comp: string)
    requires SelectFree(select) && '?' !in comp
    requires GetFiltered(select, join, filter, limit, offset, comp).Ok?
    requires GetFiltered(select, join, filter, limit, offset, comp).value.Queued?
    ensures var q := GetFiltered(select, join, filter, limit, offset, comp).value;
      q.binds.Some? && CountChar(Paragraphs(q.paragraphs), '?') == |q.binds.value|
  {
    var c := ParseFilterClause(filter, comp).value;
    var j := FilteredJoin(join, c.typeKeys).value;
    ClauseBinds(filter, comp);
    SelectSqlFree(select);
    LimitSqlFree(limit, offset);
    FilteredJoinFree(join, c.typeKeys);
    var parts := FilteredParts(SelectSql(select), j, c.includeLogic, c.excludeLogic, LimitSql(limit, offset));
    assert GetFiltered(select, join, filter, limit, offset, comp).value == Queued(parts, Some(c.binds));
    ParagraphsCount(parts);
    PartsPlaceholders(SelectSql(select), j, c.includeLogic, c.excludeLogic, LimitSql(limit, offset));
  }

  lemma FixedPartsFree()
    ensures '?' !in NotInOpen && '?' !in SubSelect && '?' !in "AND " + NotInOpen
  {
    QuoteFree("gallery_database_id");
    QuoteFree("Galleries");
  }

  /** Only the WHERE texts of a filtered statement hold placeholders. */
  lemma PartsPlaceholders(select: string, join: string, inc: string, exc: string, limit: string)
    requires '?' !in select && '?' !in join && '?' !in limit
    requires inc != "" || exc != ""
    ensures CountAll(FilteredParts(select, join, inc, exc, limit)) == CountChar(inc, '?') + CountChar(exc, '?')
  {
    FixedPartsFree();
    var parts := FilteredParts(select, join, inc, exc, limit);
    if inc != "" && exc != "" {
      CountAllHoles(parts, 3, 8);
    } else if inc != "" {
      CountCharAbsent(exc, '?');
      assert CountChar(exc, '?') == 0;
      CountAllHoles(parts, 3, 3);
    } else {
      CountCharAbsent(inc, '?');
      CountAllHoles(parts, 6, 6);
    }
  }

  lemma FilteredJoinFree(join: JoinArg, typeKeys: set<string>)
    requires FilteredJoin(join, typeKeys).Ok?
    ensures '?' !in FilteredJoin(join, typeKeys).value
  {
    match join
    case JoinText(t) =>
      if t == "*" {
        JoinsForFree(AllKeys());
      } else if t == "auto" {
        JoinsForFree(KeysAmong(Categories, typeKeys));
      } else if t != "" {
        JoinsForFree([t]);
      }
    case JoinList(keys) => JoinsForFree(keys);
  }

  /** Every queued statement ends with the LIMIT paragraph, which is
      non-empty exactly when `limit` is not 0. With both texts, the NOT IN
      subquery repeats the outer JOIN; without an include text there is no
      outer JOIN and the statement goes straight to the subquery. */
  lemma GetShape(select: Select, join: JoinArg, filter: string, limit: int, offset: int, like: bool)
    requires Get(select, join, filter, limit, offset, like).Ok?
    requires Get(select, join, filter, limit, offset, like).value.Queued?
    ensures var ps := Get(select, join, filter, limit, offset, like).value.paragraphs;
      |ps| >= 3 && ps[0] == SelectSql(select) && ps[|ps| - 1] == LimitSql(limit, offset)
    ensures var ps := Get(select, join, filter, limit, offset, like).value.paragraphs;
      filter != "" ==>
        var c := ParseFilterClause(filter, Comparison(like)).value;
        (c.includeLogic != "" && c.excludeLogic != "" ==>
          |ps| == 11 && ps[2] == "WHERE" && ps[3] == c.includeLogic && ps[1] == ps[6] && ps[8] == c.excludeLogic)
        && (c.includeLogic == "" ==>
          |ps| == 9 && ps[1] == "WHERE" && ps[2] == NotInOpen && ps[6] == c.excludeLogic)
        && (c.excludeLogic == "" ==>
          |ps| == 5 && ps[2] == "WHERE" && ps[3] == c.includeLogic)
  {
    if filter != "" {
      var comp := Comparison(like);
      var c := ParseFilterClause(filter, comp).value;
      var j := FilteredJoin(join, c.typeKeys).value;
      var parts := FilteredParts(SelectSql(select), j, c.includeLogic, c.excludeLogic, LimitSql(limit, offset));
      assert Get(select, join, filter, limit, offset, like).value.paragraphs == parts by {
        FilteredQueued(select, join, filter, limit, offset, comp);
      }
      PartsShape(SelectSql(select), j, c.includeLogic, c.excludeLogic, LimitSql(limit, offset));
    }
  }

  /** A queued filtered statement is the paragraphs of its clause and JOIN. */
  lemma FilteredQueued(select: Select, join: JoinArg, filter: string, limit: int, offset: int, comp: string)
    requires GetFiltered(select, join, filter, limit, offset, comp).Ok?
    requires GetFiltered(select, join, filter, limit, offset, comp).value.Queued?
    ensures ParseFilterClause(filter, comp).Ok?
    ensures FilteredJoin(join, ParseFilterClause(filter, comp).value.typeKeys).Ok?
    ensures var c := ParseFilterClause(filter, comp).value;
      var j := FilteredJoin(join, c.typeKeys).value;
      GetFiltered(select, join, filter, limit, offset, comp).value.paragraphs
        == FilteredParts(SelectSql(select), j, c.includeLogic, c.excludeLogic, LimitSql(limit, offset))
  {
  }

  /** The three filtered shapes: select first, LIMIT last, and the WHERE
      texts in their places. */
  lemma PartsShape(select: string, join: string, inc: string, exc: string, limit: string)
    ensures var ps := FilteredParts(select, join, inc, exc, limit);
      |ps| >= 3 && ps[0] == select && ps[|ps| - 1] == limit
      && (inc != "" && exc != "" ==> |ps| == 11 && ps[2] == "WHERE" && ps[3] == inc && ps[1] == ps[6] && ps[8] == exc)
      && (inc == "" ==> |ps| == 9 && ps[1] == "WHERE" && ps[2] == NotInOpen && ps[6] == exc)
      && (exc == "" && inc != "" ==> |ps| == 5 && ps[2] == "WHERE" && ps[3] == inc)
  {
  }
}
