/** The preferences store: a dictionary addressed by key paths, where
    setting through a missing key creates the intermediate dictionaries and
    deleting prunes the dictionaries left empty. */
module NestedDict {
  import opened Wrappers
  import opened Json

  datatype Failure = KeyError | TypeError

  type Path = seq<string>

  predicate IsPrefix(a: Path, b: Path) { |a| <= |b| && b[..|a|] == a }

  lemma PrefixCons(x: string, a: Path, b: Path)
    ensures IsPrefix([x] + a, [x] + b) <==> IsPrefix(a, b)
  {
    if IsPrefix(a, b) {
      assert ([x] + b)[..|a| + 1] == [x] + b[..|a|];
    }
    if IsPrefix([x] + a, [x] + b) {
      assert b[..|a|] == ([x] + b)[..|a| + 1][1..];
    }
  }

  /** Neither path lies on the way to the other. */
  predicate Diverge(a: Path, b: Path) { !IsPrefix(a, b) && !IsPrefix(b, a) }

  /** Follows `path` from `v`; `None` once a step meets a missing key or a
      value that is not a dictionary. */
  function Walk(v: Json, path: Path): Option<Json>
    decreases |path|
  {
    if |path| == 0 then Some(v)
    else if !v.Obj? then None
    else match Lookup(v.fields, path[0])
      case None => None
      case Some(child) => Walk(child, path[1..])
  }

  /** The loop of `__getitem__`: a step through a non-dictionary fails, a
      missing key reads as `None`, and a final `None` fails. */
  function GetFrom(cur: Json, keys: Path): (r: Result<Json, Failure>)
    ensures r.Ok? <==> Walk(cur, keys).Some? && Walk(cur, keys).value != Null
    ensures r.Ok? ==> r.value == Walk(cur, keys).value
    decreases |keys|
  {
    if |keys| == 0 then (if cur == Null then Err(KeyError) else Ok(cur))
    else if !cur.Obj? then Err(KeyError)
    else GetFrom(Lookup(cur.fields, keys[0]).GetOr(Null), keys[1..])
  }

  /** `d[keys]` */
  function Get(root: Fields, keys: Path): Result<Json, Failure> {
    GetFrom(Obj(root), keys)
  }

  /** `d[keys] = value`. The empty path replaces the whole dictionary and
      needs a dictionary value. */
  function Set(root: Fields, keys: Path, value: Json): (r: Result<Fields, Failure>)
    ensures |keys| == 0 ==> (r.Ok? <==> value.Obj?)
    ensures r.Ok? && |keys| > 0 && value != Null ==> Get(r.value, keys) == Ok(value)
  {
    if |keys| == 0 then (if value.Obj? then Ok(value.fields) else Err(TypeError))
    else SetIn(root, keys, value)
  }

  /** The walk of `__setitem__`: `setdefault` creates each missing
      dictionary on the way, a non-dictionary on the way is a `KeyError`. */
  function SetIn(fields: Fields, keys: Path, value: Json): (r: Result<Fields, Failure>)
    requires |keys| > 0
    ensures r.Ok? ==> Walk(Obj(r.value), keys) == Some(value)
    decreases |keys|
  {
    if |keys| == 1 then Ok(Update(fields, keys[0], value))
    else match Lookup(fields, keys[0])
      case None =>
        var sub :- SetIn([], keys[1..], value);
        Ok(Update(fields, keys[0], Obj(sub)))
      case Some(child) =>
        if !child.Obj? then Err(KeyError)
        else
          var sub :- SetIn(child.fields, keys[1..], value);
          Ok(Update(fields, keys[0], Obj(sub)))
  }

  /** A value that is not a dictionary sits strictly before the end of `keys`. */
  predicate Blocked(v: Json, keys: Path) {
    exists j :: 0 < j < |keys| && Walk(v, keys[..j]).Some? && !Walk(v, keys[..j]).value.Obj?
  }

  /** Setting fails exactly when a non-dictionary value is in the way. */
  lemma {:induction false} SetFailsIffBlocked(fields: Fields, keys: Path, value: Json)
    requires |keys| > 0
    ensures SetIn(fields, keys, value).Err? <==> Blocked(Obj(fields), keys)
    decreases |keys|
  {
    var v := Obj(fields);
    if |keys| == 1 {
      assert !Blocked(v, keys);
    } else {
      var rest := keys[1..];
      forall j | 1 < j <= |keys| ensures Walk(v, keys[..j]) == (match Lookup(fields, keys[0]) case None => None case Some(c) => Walk(c, rest[..j - 1])) {
        assert keys[..j][1..] == rest[..j - 1];
      }
      assert Walk(v, keys[..1]) == Lookup(fields, keys[0]) by {
        assert keys[..1][1..] == [];
      }
      match Lookup(fields, keys[0])
      case None =>
        SetFailsIffBlocked([], rest, value);
        assert !Blocked(Obj([]), rest) by {
          forall j | 0 < j < |rest| ensures !(Walk(Obj([]), rest[..j]).Some? && !Walk(Obj([]), rest[..j]).value.Obj?) {
          }
        }
        assert !Blocked(v, keys) by {
          forall j | 0 < j < |keys| ensures Walk(v, keys[..j]) == None {
          }
        }
      case Some(child) =>
        if child.Obj? {
          SetFailsIffBlocked(child.fields, rest, value);
          if Blocked(child, rest) {
            var j :| 0 < j < |rest| && Walk(child, rest[..j]).Some? && !Walk(child, rest[..j]).value.Obj?;
            assert Walk(v, keys[..j + 1]) == Walk(child, rest[..j]);
          }
          if Blocked(v, keys) {
            var j :| 0 < j < |keys| && Walk(v, keys[..j]).Some? && !Walk(v, keys[..j]).value.Obj?;
            assert j > 1;
            assert Walk(child, rest[..j - 1]) == Walk(v, keys[..j]);
          }
        } else {
          assert Walk(v, keys[..1]) == Some(child);
        }
    }
  }

  /** Setting one path leaves every diverging path reading as before. */
  lemma {:induction false} SetFrame(fields: Fields, keys: Path, value: Json, other: Path)
    requires |keys| > 0 && SetIn(fields, keys, value).Ok?
    requires Diverge(keys, other)
    ensures GetFrom(Obj(SetIn(fields, keys, value).value), other) == GetFrom(Obj(fields), other)
    decreases |keys|
  {
    var r := SetIn(fields, keys, value).value;
    assert |other| > 0;
    if keys[0] != other[0] {
      assert Lookup(r, other[0]) == Lookup(fields, other[0]);
    } else {
      assert keys[..1] == [keys[0]] == other[..1];
      assert |keys| > 1 && |other| > 1;
      var rest, otherRest := keys[1..], other[1..];
      assert keys == [keys[0]] + rest && other == [keys[0]] + otherRest;
      PrefixCons(keys[0], rest, otherRest);
      PrefixCons(keys[0], otherRest, rest);
      match Lookup(fields, keys[0])
      case None =>
        var sub := SetIn([], rest, value).value;
        assert r == Update(fields, keys[0], Obj(sub));
        SetFrame([], rest, value, otherRest);
        assert GetFrom(Obj([]), otherRest).Err?;
      case Some(child) =>
        var sub := SetIn(child.fields, rest, value).value;
        assert r == Update(fields, keys[0], Obj(sub));
        SetFrame(child.fields, rest, value, otherRest);
    }
  }

  /** `del d[keys]`: the empty path clears everything; otherwise the walk
      creates missing dictionaries like `__setitem__`, the last key goes
      when present, and every dictionary on the path left empty is pruned,
      deepest first. */
  function Delete(root: Fields, keys: Path): (r: Result<Fields, Failure>)
    ensures |keys| == 0 ==> r == Ok([])
    ensures r.Ok? && |keys| > 0 ==> Get(r.value, keys).Err?
  {
    if |keys| == 0 then Ok([]) else DeleteIn(root, keys)
  }

  function DeleteIn(fields: Fields, keys: Path): (r: Result<Fields, Failure>)
    requires |keys| > 0
    ensures r.Ok? ==> GetFrom(Obj(r.value), keys).Err?
    ensures r.Ok? ==> forall j :: 0 < j < |keys| ==> Walk(Obj(r.value), keys[..j]) != Some(Obj([]))
    decreases |keys|
  {
    if |keys| == 1 then
      Ok(if HasKey(fields, keys[0]) then Remove(fields, keys[0]) else fields)
    else
      var child := Lookup(fields, keys[0]).GetOr(Obj([]));
      if !child.Obj? then Err(KeyError)
      else
        var sub :- DeleteIn(child.fields, keys[1..]);
        var updated := Update(fields, keys[0], Obj(sub));
        var r := if sub == [] then Remove(updated, keys[0]) else updated;
        assert forall j :: 1 < j <= |keys| ==> keys[..j][1..] == keys[1..][..j - 1];
        assert keys[..1][1..] == [];
        Ok(r)
  }

  /** Deleting under a key that is not there changes nothing. */
  lemma {:induction false} DeleteMissingUnchanged(fields: Fields, keys: Path)
    requires |keys| > 0 && !HasKey(fields, keys[0])
    ensures DeleteIn(fields, keys) == Ok(fields)
    decreases |keys|
  {
    if |keys| > 1 {
      DeleteMissingUnchanged([], keys[1..]);
      RemoveUpdateFresh(fields, keys[0], Obj([]));
    }
  }

  /** The leaves of a mapping in the order `nested_update` and
      `nested_replace` visit them: depth first, entries in order, a
      dictionary value is descended into rather than visited. */
  function Leaves(v: Json, chain: Path): (r: seq<(Path, Json)>)
    requires v.Obj?
    ensures forall i :: 0 <= i < |r| ==> !r[i].1.Obj? && |r[i].0| > |chain| && IsPrefix(chain, r[i].0)
    decreases v, 1
  {
    EntryLeaves(v, 0, chain)
  }

  function EntryLeaves(v: Json, i: nat, chain: Path): (r: seq<(Path, Json)>)
    requires v.Obj? && i <= |v.fields|
    ensures forall n :: 0 <= n < |r| ==> !r[n].1.Obj? && |r[n].0| > |chain| && IsPrefix(chain, r[n].0)
    ensures forall n :: 0 <= n < |r| ==> exists m :: i <= m < |v.fields| && r[n].0[|chain|] == v.fields[m].0
    decreases v, 0, |v.fields| - i
  {
    if i == |v.fields| then []
    else
      var entry := v.fields[i];
      assert entry in v.fields;
      var here := if entry.1.Obj? then Leaves(entry.1, chain + [entry.0]) else [(chain + [entry.0], entry.1)];
      assert forall n :: 0 <= n < |here| ==> here[n].0[|chain|] == entry.0 by {
        forall n | 0 <= n < |here| ensures here[n].0[|chain|] == entry.0 {
          assert IsPrefix(chain + [entry.0], here[n].0);
          assert here[n].0[..|chain| + 1] == chain + [entry.0];
        }
      }
      var rest := EntryLeaves(v, i + 1, chain);
      here + rest
  }

  /** A Python dictionary has distinct keys, at every level. */
  predicate DistinctKeys(v: Json) {
    v.Obj? ==>
      (forall a, b :: 0 <= a < b < |v.fields| ==> v.fields[a].0 != v.fields[b].0)
      && (forall a :: 0 <= a < |v.fields| ==> DistinctKeys(v.fields[a].1))
  }

  /** Sets `value` at each leaf path in turn; the first failure ends it. */
  function SetAll(root: Fields, leaves: seq<(Path, Json)>): Result<Fields, Failure>
    decreases |leaves|
  {
    if |leaves| == 0 then Ok(root)
    else
      var next :- Set(root, leaves[0].0, leaves[0].1);
      SetAll(next, leaves[1..])
  }

  /** `nested_update(mapping)`. */
  function NestedUpdate(root: Fields, mapping: Fields): Result<Fields, Failure> {
    SetAll(root, Leaves(Obj(mapping), []))
  }

  predicate PairwiseDiverge(leaves: seq<(Path, Json)>) {
    forall a, b :: 0 <= a < b < |leaves| ==> Diverge(leaves[a].0, leaves[b].0)
  }

  /** After setting leaves whose paths pairwise diverge, each non-null leaf
      reads back its own value. */
  lemma {:induction false} SetAllReadsBack(root: Fields, leaves: seq<(Path, Json)>)
    requires PairwiseDiverge(leaves)
    requires forall n :: 0 <= n < |leaves| ==> |leaves[n].0| > 0
    requires SetAll(root, leaves).Ok?
    ensures forall n :: 0 <= n < |leaves| && leaves[n].1 != Null ==>
      Get(SetAll(root, leaves).value, leaves[n].0) == Ok(leaves[n].1)
    decreases |leaves|
  {
    if |leaves| > 0 {
      var next := Set(root, leaves[0].0, leaves[0].1).value;
      var tail := leaves[1..];
      assert PairwiseDiverge(tail) by {
        forall a, b | 0 <= a < b < |tail| ensures Diverge(tail[a].0, tail[b].0) {
          assert tail[a] == leaves[a + 1] && tail[b] == leaves[b + 1];
        }
      }
      SetAllReadsBack(next, tail);
      if leaves[0].1 != Null {
        SetAllKeeps(next, tail, leaves[0].0);
      }
      forall n | 1 <= n < |leaves| && leaves[n].1 != Null
        ensures Get(SetAll(root, leaves).value, leaves[n].0) == Ok(leaves[n].1)
      {
        assert tail[n - 1] == leaves[n];
      }
    }
  }

  /** Leaves whose paths diverge from `p` leave what `p` reads untouched. */
  lemma {:induction false} SetAllKeeps(root: Fields, leaves: seq<(Path, Json)>, p: Path)
    requires forall n :: 0 <= n < |leaves| ==> |leaves[n].0| > 0 && Diverge(leaves[n].0, p)
    requires SetAll(root, leaves).Ok?
    ensures Get(SetAll(root, leaves).value, p) == Get(root, p)
    decreases |leaves|
  {
    if |leaves| > 0 {
      var next := Set(root, leaves[0].0, leaves[0].1).value;
      SetFrame(root, leaves[0].0, leaves[0].1, p);
      SetAllKeeps(next, leaves[1..], p);
    }
  }

  /** Paths that start with different keys after a shared chain diverge. */
  lemma DivergeAt(a: Path, b: Path, chain: Path)
    requires IsPrefix(chain, a) && IsPrefix(chain, b)
    requires |a| > |chain| && |b| > |chain| && a[|chain|] != b[|chain|]
    ensures Diverge(a, b)
  {
    if |a| <= |b| { assert b[..|a|][|chain|] == b[|chain|]; }
    if |b| <= |a| { assert a[..|b|][|chain|] == a[|chain|]; }
  }

  /** The leaves of a dictionary with distinct keys lie on pairwise
      diverging paths. */
  lemma {:induction false} LeavesDiverge(v: Json, chain: Path)
    requires v.Obj? && DistinctKeys(v)
    ensures PairwiseDiverge(Leaves(v, chain))
    decreases v, 1
  {
    EntryLeavesDiverge(v, 0, chain);
  }

  lemma {:induction false} EntryLeavesDiverge(v: Json, i: nat, chain: Path)
    requires v.Obj? && DistinctKeys(v) && i <= |v.fields|
    ensures PairwiseDiverge(EntryLeaves(v, i, chain))
    decreases v, 0, |v.fields| - i
  {
    if i < |v.fields| {
      var entry := v.fields[i];
      assert entry in v.fields;
      var here := if entry.1.Obj? then Leaves(entry.1, chain + [entry.0]) else [(chain + [entry.0], entry.1)];
      var rest := EntryLeaves(v, i + 1, chain);
      assert EntryLeaves(v, i, chain) == here + rest;
      if entry.1.Obj? {
        assert DistinctKeys(v.fields[i].1);
        LeavesDiverge(entry.1, chain + [entry.0]);
      }
      EntryLeavesDiverge(v, i + 1, chain);
      HereLeavesShape(here, chain, entry.0);
      forall a, b | 0 <= a < |here| && 0 <= b < |rest| ensures Diverge(here[a].0, rest[b].0) {
        var m :| i + 1 <= m < |v.fields| && rest[b].0[|chain|] == v.fields[m].0;
        DivergeAt(here[a].0, rest[b].0, chain);
      }
      ConcatDiverge(here, rest);
    }
  }

  lemma HereLeavesShape(here: seq<(Path, Json)>, chain: Path, key: string)
    requires forall n :: 0 <= n < |here| ==> IsPrefix(chain + [key], here[n].0)
    ensures forall n :: 0 <= n < |here| ==> |here[n].0| > |chain| && here[n].0[|chain|] == key && IsPrefix(chain, here[n].0)
  {
    forall n | 0 <= n < |here| ensures |here[n].0| > |chain| && here[n].0[|chain|] == key && IsPrefix(chain, here[n].0) {
      assert here[n].0[..|chain| + 1] == chain + [key];
      assert here[n].0[..|chain|] == (chain + [key])[..|chain|];
    }
  }

  lemma ConcatDiverge(here: seq<(Path, Json)>, rest: seq<(Path, Json)>)
    requires PairwiseDiverge(here) && PairwiseDiverge(rest)
    requires forall a, b :: 0 <= a < |here| && 0 <= b < |rest| ==> Diverge(here[a].0, rest[b].0)
    ensures PairwiseDiverge(here + rest)
  {
    var all := here + rest;
    forall a, b | 0 <= a < b < |all| ensures Diverge(all[a].0, all[b].0) {
      if b < |here| {
        assert all[a] == here[a] && all[b] == here[b];
      } else if a < |here| {
        assert all[a] == here[a] && all[b] == rest[b - |here|];
      } else {
        assert all[a] == rest[a - |here|] && all[b] == rest[b - |here|];
      }
    }
  }

  /** `nested_update`: every non-null leaf of the mapping reads back. */
  lemma NestedUpdateReadsBack(root: Fields, mapping: Fields)
    requires DistinctKeys(Obj(mapping))
    requires NestedUpdate(root, mapping).Ok?
    ensures forall leaf :: leaf in Leaves(Obj(mapping), []) && leaf.1 != Null ==>
      Get(NestedUpdate(root, mapping).value, leaf.0) == Ok(leaf.1)
  {
    var leaves := Leaves(Obj(mapping), []);
    LeavesDiverge(Obj(mapping), []);
    SetAllReadsBack(root, leaves);
  }

  /** The walk along a path passes through each of its prefixes. */
  lemma {:induction false} WalkThrough(v: Json, p: Path, q: Path)
    requires IsPrefix(p, q)
    ensures Walk(v, q) == (match Walk(v, p) case None => None case Some(w) => Walk(w, q[|p|..]))
    decreases |p|
  {
    if |p| > 0 {
      assert q[0] == p[0];
      if v.Obj? && Lookup(v.fields, p[0]).Some? {
        var child := Lookup(v.fields, p[0]).value;
        assert IsPrefix(p[1..], q[1..]);
        WalkThrough(child, p[1..], q[1..]);
        assert q[1..][|p| - 1..] == q[|p|..];
      }
    } else {
      assert q[0..] == q;
    }
  }

  /** A path that can be read has readable, dictionary-valued prefixes. */
  lemma PrefixOfReadable(v: Json, p: Path, q: Path)
    requires GetFrom(v, p).Ok? && IsPrefix(q, p)
    ensures GetFrom(v, q).Ok?
    ensures |q| < |p| ==> Walk(v, q).value.Obj?
  {
    WalkThrough(v, q, p);
    if |q| < |p| {
      var w := Walk(v, q).value;
      assert Walk(w, p[|q|..]).Some?;
    }
  }

  /** `nested_replace`, leaf by leaf: a leaf whose path cannot be read ends
      the whole replacement; an empty text leaves the value alone. */
  function ReplaceAll(root: Fields, leaves: seq<(Path, Json)>): (r: Result<Fields, Failure>)
    requires forall n :: 0 <= n < |leaves| ==> |leaves[n].0| > 0
    ensures r.Ok?
    decreases |leaves|
  {
    if |leaves| == 0 then Ok(root)
    else if Get(root, leaves[0].0).Err? then Ok(root)
    else if leaves[0].1 == Str("") then ReplaceAll(root, leaves[1..])
    else
      ReadableSettable(root, leaves[0].0, leaves[0].1);
      ReplaceAll(SetIn(root, leaves[0].0, leaves[0].1).value, leaves[1..])
  }

  /** A path that can be read can be written. */
  lemma ReadableSettable(root: Fields, p: Path, value: Json)
    requires |p| > 0 && Get(root, p).Ok?
    ensures SetIn(root, p, value).Ok?
  {
    assert !Blocked(Obj(root), p) by {
      forall j | 0 < j < |p| ensures Walk(Obj(root), p[..j]).Some? && Walk(Obj(root), p[..j]).value.Obj? {
        PrefixOfReadable(Obj(root), p, p[..j]);
      }
    }
    SetFailsIffBlocked(root, p, value);
  }

  /** `nested_replace(mapping)`. */
  function NestedReplace(root: Fields, mapping: Fields): Result<Fields, Failure> {
    ReplaceAll(root, Leaves(Obj(mapping), []))
  }

  /** One replacement step at a readable path creates no readable path. */
  lemma ReplaceStepNoNewKeys(root: Fields, p: Path, value: Json, q: Path)
    requires |p| > 0 && Get(root, p).Ok? && !value.Obj?
    requires Get(root, q).Err?
    ensures SetIn(root, p, value).Ok? && Get(SetIn(root, p, value).value, q).Err?
  {
    ReadableSettable(root, p, value);
    var r := SetIn(root, p, value).value;
    if IsPrefix(q, p) {
      PrefixOfReadable(Obj(root), p, q);
    } else if IsPrefix(p, q) {
      WalkThrough(Obj(r), p, q);
      assert q[..|p|] == p;
      assert Walk(Obj(r), q) == Walk(value, q[|p|..]);
    } else {
      SetFrame(root, p, value, q);
    }
  }

  /** `nested_replace` only ever replaces keys that already exist: a path
      that could not be read before cannot be read after. */
  lemma {:induction false} ReplaceAllNoNewKeys(root: Fields, leaves: seq<(Path, Json)>, q: Path)
    requires forall n :: 0 <= n < |leaves| ==> |leaves[n].0| > 0 && !leaves[n].1.Obj?
    requires Get(root, q).Err?
    ensures Get(ReplaceAll(root, leaves).value, q).Err?
    decreases |leaves|
  {
    if |leaves| > 0 && Get(root, leaves[0].0).Ok? {
      if leaves[0].1 == Str("") {
        ReplaceAllNoNewKeys(root, leaves[1..], q);
      } else {
        var p := leaves[0].0;
        ReadableSettable(root, p, leaves[0].1);
        var next := SetIn(root, p, leaves[0].1).value;
        ReplaceStepNoNewKeys(root, p, leaves[0].1, q);
        ReplaceAllNoNewKeys(next, leaves[1..], q);
      }
    }
  }

  lemma NestedReplaceNoNewKeys(root: Fields, mapping: Fields, q: Path)
    requires Get(root, q).Err?
    ensures Get(NestedReplace(root, mapping).value, q).Err?
  {
    ReplaceAllNoNewKeys(root, Leaves(Obj(mapping), []), q);
  }
}
