/** Path-name sanitising and byte-unit selection
    (`miscellaneous/functions.py`). */
module Pathnames {
  import opened Text

  /** A character `validate_pathname` replaces: the ASCII characters that
      are not in Python's `string.printable` (codes 0-8, 14-31 and 127),
      the whitespace controls tab, line feed, carriage return, vertical tab
      and form feed, and `: * ? " < > |`. */
  predicate InvalidChar(c: char) {
    var k := c as int;
    k < 32 || k == 127
    || c == ':' || c == '*' || c == '?' || c == '"' || c == '<' || c == '>' || c == '|'
  }

  predicate IsValidPathname(s: string) {
    forall i :: 0 <= i < |s| ==> !InvalidChar(s[i])
  }

  /** Every invalid character becomes `-` (not `_` as the source's
      doc-comment states); every other character, `/` and `\` included,
      is kept. */
  function ValidatePathname(s: string): (r: string)
    ensures |r| == |s|
    ensures IsValidPathname(r)
    ensures forall i :: 0 <= i < |s| && InvalidChar(s[i]) ==> r[i] == '-'
    ensures forall i :: 0 <= i < |s| && !InvalidChar(s[i]) ==> r[i] == s[i]
  {
    seq(|s|, i requires 0 <= i < |s| => if InvalidChar(s[i]) then '-' else s[i])
  }

  /** Sanitising is idempotent, and it leaves a text alone exactly when
      that text has no invalid character. */
  lemma ValidatePathnameIdempotent(s: string)
    ensures ValidatePathname(ValidatePathname(s)) == ValidatePathname(s)
    ensures ValidatePathname(s) == s <==> IsValidPathname(s)
  {
    if ValidatePathname(s) == s {
      assert IsValidPathname(s);
    }
  }

  /** Sanitising each `/`-separated segment and re-joining them is the
      same as sanitising the whole path, because `/` is never replaced. */
  lemma {:induction false} SegmentwiseIsWhole(path: string)
    ensures Join('/', MapValidate(Split(path, '/'))) == ValidatePathname(path)
    decreases |path|
  {
    if |path| > 0 {
      SegmentwiseIsWhole(path[1..]);
      ValidateConcat([path[0]], path[1..]);
      assert [path[0]] + path[1..] == path;
      if path[0] == '/' {
        SegmentwiseSlash(path);
      } else {
        SegmentwiseOther(path);
      }
    }
  }

  lemma SegmentwiseSlash(path: string)
    requires |path| > 0 && path[0] == '/'
    ensures Join('/', MapValidate(Split(path, '/'))) == "/" + Join('/', MapValidate(Split(path[1..], '/')))
  {
    var rest := Split(path[1..], '/');
    assert Split(path, '/') == [""] + rest;
    assert MapValidate([""] + rest) == [""] + MapValidate(rest);
    JoinCons("", MapValidate(rest));
  }

  lemma SegmentwiseOther(path: string)
    requires |path| > 0 && path[0] != '/'
    ensures Join('/', MapValidate(Split(path, '/')))
      == ValidatePathname([path[0]]) + Join('/', MapValidate(Split(path[1..], '/')))
  {
    var rest := Split(path[1..], '/');
    var head := [path[0]] + rest[0];
    var tail := MapValidate(rest[1..]);
    var first := ValidatePathname([path[0]]);
    var vr := ValidatePathname(rest[0]);
    assert Split(path, '/') == [head] + rest[1..];
    ValidateConcat([path[0]], rest[0]);
    MapValidateCons(head, rest[1..]);
    MapValidateCons(rest[0], rest[1..]);
    assert rest == [rest[0]] + rest[1..];
    JoinCons(first + vr, tail);
    JoinCons(vr, tail);
    if |tail| > 0 {
      ConcatAssoc(first, vr, "/" + Join('/', tail));
    }
  }

  lemma MapValidateCons(head: string, tail: seq<string>)
    ensures MapValidate([head] + tail) == [ValidatePathname(head)] + MapValidate(tail)
  {
    assert ([head] + tail)[1..] == tail;
  }

  lemma ValidateConcat(a: string, b: string)
    ensures ValidatePathname(a + b) == ValidatePathname(a) + ValidatePathname(b)
  {
  }

  function MapValidate(parts: seq<string>): (r: seq<string>)
    ensures |r| == |parts|
    ensures forall i :: 0 <= i < |parts| ==> r[i] == ValidatePathname(parts[i])
    decreases |parts|
  {
    if |parts| == 0 then [] else [ValidatePathname(parts[0])] + MapValidate(parts[1..])
  }

  lemma JoinCons(head: string, tail: seq<string>)
    ensures Join('/', [head] + tail) == if |tail| == 0 then head else head + ("/" + Join('/', tail))
  {
    var t := [head] + tail;
    assert t[0] == head && t[1..] == tail;
    if |tail| > 0 {
      assert Join('/', t) == head + ['/'] + Join('/', tail);
      ConcatAssoc(head, ['/'], Join('/', tail));
    }
  }

  /** The units of `get_value_and_unit_from_Bytes`, each 1024 times the last. */
  const Units: seq<string> := ["B", "KiB", "MiB", "GiB", "TiB", "PiB", "EiB", "ZiB", "YiB"]

  function Pow1024(i: nat): (r: nat)
    ensures r >= 1
  {
    if i == 0 then 1 else 1024 * Pow1024(i - 1)
  }

  /** The unit index `max(bisect(_SIZES, Bytes) - 1, 0)`, computed the way
      `bisect_right` counts the sizes that are at most `bytes`. */
  method UnitIndex(bytes: int) returns (i: nat)
    ensures i < |Units|
    ensures bytes < 1024 ==> i == 0
    ensures bytes >= 1 ==> Pow1024(i) <= bytes
    ensures i + 1 < |Units| ==> bytes < Pow1024(i + 1)
  {
    var count := 0;
    var size := 1;
    while count < |Units| && size <= bytes
      invariant 0 <= count <= |Units|
      invariant size == Pow1024(count)
      invariant forall k :: 0 <= k < count ==> Pow1024(k) <= bytes
      decreases |Units| - count
    {
      PowMonotone(count);
      count := count + 1;
      size := size * 1024;
    }
    i := if count == 0 then 0 else count - 1;
    PowMonotone(i);
    if count > 0 {
      assert Pow1024(count - 1) <= bytes;
    }
  }

  lemma PowMonotone(i: nat)
    ensures Pow1024(i) < Pow1024(i + 1)
    ensures i > 0 ==> Pow1024(i) >= 1024
  {
  }

  /** The unit label and the exact (unrounded) value in that unit. */
  method ValueAndUnit(bytes: int) returns (value: real, unit: string)
    ensures unit in Units
    ensures bytes < 1024 ==> unit == "B" && value == bytes as real
    ensures exists i :: 0 <= i < |Units| && unit == Units[i] && value * Pow1024(i) as real == bytes as real
  {
    var i := UnitIndex(bytes);
    var scale := Pow1024(i) as real;
    unit := Units[i];
    value := bytes as real / scale;
    DivideThenMultiply(bytes as real, scale);
    assert 0 <= i < |Units| && unit == Units[i] && value * Pow1024(i) as real == bytes as real;
    assert bytes < 1024 ==> scale == 1.0;
  }

  /** Dividing by a positive scale and multiplying back gives the value. */
  lemma DivideThenMultiply(b: real, scale: real)
    requires scale > 0.0
    ensures (b / scale) * scale == b
  {
  }
}
