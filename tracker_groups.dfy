// The group table of the tracker: an insertion-ordered dictionary from
// group name to its task list, and the edits the tracker makes to it.
module GroupDict {

  /** No element twice: the first does not recur, and so on for the rest. */
  ghost predicate Distinct(s: seq<string>)
    decreases |s|
  {
    |s| == 0 || (s[0] !in s[1..] && Distinct(s[1..]))
  }

  /** No element twice, stated on positions. */
  ghost predicate Apart(s: seq<string>) {
    forall i, j :: 0 <= i < j < |s| ==> s[i] != s[j]
  }

  lemma {:induction false} DistinctIsApart(s: seq<string>)
    ensures Distinct(s) <==> Apart(s)
    decreases |s|
  {
    if |s| > 0 {
      var t := s[1..];
      DistinctIsApart(t);
      if Apart(s) {
        forall i, j | 0 <= i < j < |t| ensures t[i] != t[j] {
          assert t[i] == s[i + 1] && t[j] == s[j + 1];
        }
        forall j | 0 <= j < |t| ensures t[j] != s[0] {
          assert t[j] == s[j + 1];
        }
      }
      if Distinct(s) {
        forall i, j | 0 <= i < j < |s| ensures s[i] != s[j] {
          assert s[j] == t[j - 1];
          if i > 0 {
            assert s[i] == t[i - 1];
          }
        }
      }
    }
  }

  /** Appending a name not yet present keeps the names distinct; add_task
      appends only such a name, so it never makes a duplicate. */
  lemma {:induction false} AppendDistinct(s: seq<string>, x: string)
    ensures Distinct(s) && x !in s ==> Distinct(s + [x])
    decreases |s|
  {
    if |s| > 0 && x !in s {
      assert (s + [x])[1..] == s[1..] + [x];
      AppendDistinct(s[1..], x);
    } else {
      assert [x][1..] == [];
    }
  }

  /** `self.groups`: the group names in dictionary order, and the task list
      of each name. */
  datatype Dict = Dict(keys: seq<string>, vals: map<string, seq<string>>) {
    ghost predicate Valid() {
      Distinct(keys) && (forall k :: k in vals <==> k in keys)
    }
  }

  const Empty: Dict := Dict([], map[])

  /** The groups a first run starts with. */
  const DefaultGroups: Dict := Dict(["メイン業務", "その他"],
    map["メイン業務" := ["電話対応", "事務処理", "会議", "資料作成"], "その他" := ["休憩", "移動", "雑務"]])

  /** The default table is well formed. */
  lemma DefaultGroupsValid()
    ensures DefaultGroups.Valid()
  {
    assert DefaultGroups.keys[0] != DefaultGroups.keys[1];
  }

  /** `list.index(x)`: the first position of `x`. */
  function IndexOf(s: seq<string>, x: string): (i: nat)
    requires x in s
    ensures i < |s| && s[i] == x
    ensures forall j :: 0 <= j < i ==> s[j] != x
  {
    if s[0] == x then 0 else 1 + IndexOf(s[1..], x)
  }

  /** The elements at `i` and `j` exchanged. */
  function Swap(s: seq<string>, i: nat, j: nat): (r: seq<string>)
    requires i < |s| && j < |s|
    ensures |r| == |s| && r[i] == s[j] && r[j] == s[i]
    ensures forall k :: 0 <= k < |s| && k != i && k != j ==> r[k] == s[k]
  {
    s[i := s[j]][j := s[i]]
  }

  /** `list.remove(x)`: exactly one copy of `x` taken out, the first, and
      the rest kept in order. */
  function RemoveFirst(s: seq<string>, x: string): (r: seq<string>)
    requires x in s
    ensures |r| == |s| - 1
    ensures multiset(r) == multiset(s) - multiset{x}
    ensures r == s[..IndexOf(s, x)] + s[IndexOf(s, x) + 1..]
  {
    var i := IndexOf(s, x);
    assert s == s[..i] + ([x] + s[i + 1..]);
    assert multiset(s) == multiset(s[..i]) + multiset{x} + multiset(s[i + 1..]);
    s[..i] + s[i + 1..]
  }

  /** A swap only reorders. */
  lemma SwapPermutes(s: seq<string>, i: nat, j: nat)
    requires i < |s| && j < |s|
    ensures multiset(Swap(s, i, j)) == multiset(s)
    ensures forall x :: x in Swap(s, i, j) <==> x in s
  {
    var r := Swap(s, i, j);
    forall x ensures x in r <==> x in s {
      assert x in multiset(r) <==> x in multiset(s);
    }
  }

  /** `d[k] = v`: a new key goes last, an existing key keeps its place. */
  function Put(d: Dict, k: string, v: seq<string>): (r: Dict)
    ensures d.Valid() ==> r.Valid()
    ensures r.vals == d.vals[k := v]
    ensures r.keys == if k in d.vals then d.keys else d.keys + [k]
  {
    if k in d.vals then Dict(d.keys, d.vals[k := v])
    else
      AppendDistinct(d.keys, k);
      Dict(d.keys + [k], d.vals[k := v])
  }

  /** `{g: groups[g] for g in gl}`. */
  function Rebuild(gl: seq<string>, vals: map<string, seq<string>>): Dict
    requires forall g :: g in gl ==> g in vals
  {
    Dict(gl, map g | g in gl :: vals[g])
  }

  // ---------------------------------------------------------------------
  // Moving a group

  /** move_group_up: the group changes places with the one before it. */
  function MovedUp(d: Dict, g: string): Dict
    requires d.Valid() && g in d.vals
  {
    var gl := d.keys;
    var idx := IndexOf(gl, g);
    if idx > 0 then Rebuild(Swap(gl, idx, idx - 1), d.vals) else d
  }

  /** move_group_down: the group changes places with the one after it. */
  function MovedDown(d: Dict, g: string): Dict
    requires d.Valid() && g in d.vals
  {
    var gl := d.keys;
    var idx := IndexOf(gl, g);
    if idx < |gl| - 1 then Rebuild(Swap(gl, idx, idx + 1), d.vals) else d
  }

  /** A swap of distinct names keeps them distinct. */
  lemma SwapKeepsDistinct(s: seq<string>, i: nat, j: nat)
    requires Distinct(s) && i < |s| && j < |s|
    ensures Distinct(Swap(s, i, j))
  {
    var r := Swap(s, i, j);
    DistinctIsApart(s);
    DistinctIsApart(r);
    forall a, b | 0 <= a < b < |r| ensures r[a] != r[b] {
      var a' := if a == i then j else if a == j then i else a;
      var b' := if b == i then j else if b == j then i else b;
      assert r[a] == s[a'] && r[b] == s[b'];
    }
  }

  /** Rebuilding the table over a reordering of its names keeps every
      binding. */
  lemma RebuildPermuted(d: Dict, gl: seq<string>)
    requires d.Valid() && Distinct(gl) && forall g :: g in gl <==> g in d.keys
    ensures forall g :: g in gl <==> g in d.vals
    ensures Rebuild(gl, d.vals) == Dict(gl, d.vals) && Dict(gl, d.vals).Valid()
  {
  }

  /** Rebuilding the table over its names with two of them exchanged. */
  lemma RebuildSwapped(d: Dict, i: nat, j: nat)
    requires d.Valid() && i < |d.keys| && j < |d.keys|
    ensures forall g :: g in Swap(d.keys, i, j) ==> g in d.vals
    ensures Rebuild(Swap(d.keys, i, j), d.vals) == Dict(Swap(d.keys, i, j), d.vals)
    ensures Dict(Swap(d.keys, i, j), d.vals).Valid()
  {
    SwapKeepsDistinct(d.keys, i, j);
    SwapPermutes(d.keys, i, j);
    RebuildPermuted(d, Swap(d.keys, i, j));
  }

  /** Moving a group up keeps every name bound to its own task list and
      moves only that name, one place towards the front; the first group
      stays where it is. */
  lemma MovedUpSpec(d: Dict, g: string)
    requires d.Valid() && g in d.vals
    ensures MovedUp(d, g).Valid() && MovedUp(d, g).vals == d.vals
    ensures IndexOf(d.keys, g) == 0 ==> MovedUp(d, g) == d
    ensures IndexOf(d.keys, g) > 0 ==>
      MovedUp(d, g).keys == Swap(d.keys, IndexOf(d.keys, g), IndexOf(d.keys, g) - 1)
  {
    var idx := IndexOf(d.keys, g);
    if idx > 0 {
      RebuildSwapped(d, idx, idx - 1);
    } else {
      assert !(IndexOf(d.keys, g) > 0);
    }
  }

  /** Moving a group down keeps the bindings and moves only that name, one
      place towards the end; the last group stays where it is. */
  lemma MovedDownSpec(d: Dict, g: string)
    requires d.Valid() && g in d.vals
    ensures MovedDown(d, g).Valid() && MovedDown(d, g).vals == d.vals
    ensures IndexOf(d.keys, g) == |d.keys| - 1 ==> MovedDown(d, g) == d
    ensures IndexOf(d.keys, g) < |d.keys| - 1 ==>
      MovedDown(d, g).keys == Swap(d.keys, IndexOf(d.keys, g), IndexOf(d.keys, g) + 1)
  {
    var idx := IndexOf(d.keys, g);
    if idx < |d.keys| - 1 {
      RebuildSwapped(d, idx, idx + 1);
    } else {
      assert !(IndexOf(d.keys, g) < |d.keys| - 1);
    }
  }

  /** A group move only reorders the names. */
  lemma MovesPermute(d: Dict, g: string)
    requires d.Valid() && g in d.vals
    ensures multiset(MovedUp(d, g).keys) == multiset(d.keys)
    ensures multiset(MovedDown(d, g).keys) == multiset(d.keys)
  {
    var idx := IndexOf(d.keys, g);
    MovedUpSpec(d, g);
    MovedDownSpec(d, g);
    if idx > 0 {
      SwapPermutes(d.keys, idx, idx - 1);
    }
    if idx < |d.keys| - 1 {
      SwapPermutes(d.keys, idx, idx + 1);
    }
  }

  /** Down undoes up: a group that is not first, moved up and then down,
      leaves the table as it was. */
  lemma MoveUpThenDown(d: Dict, g: string)
    requires d.Valid() && g in d.vals && IndexOf(d.keys, g) > 0
    ensures MovedUpSpecHolds(d, g) && MovedDown(MovedUp(d, g), g) == d
  {
    MovedUpSpec(d, g);
    var idx := IndexOf(d.keys, g);
    var up := MovedUp(d, g);
    SwapToFront(d.keys, g);
    MovedDownSpec(up, g);
    SwapTwice(d.keys, idx, idx - 1);
  }

  /** Exchanging the same two places twice restores the sequence. */
  lemma SwapTwice(s: seq<string>, i: nat, j: nat)
    requires i < |s| && j < |s|
    ensures Swap(Swap(s, i, j), j, i) == s
  {
  }

  /** After a move towards the front the moved element is the first
      occurrence at its new place. */
  lemma SwapToFront(s: seq<string>, x: string)
    requires x in s && IndexOf(s, x) > 0
    ensures x in Swap(s, IndexOf(s, x), IndexOf(s, x) - 1)
    ensures IndexOf(Swap(s, IndexOf(s, x), IndexOf(s, x) - 1), x) == IndexOf(s, x) - 1
  {
    var i := IndexOf(s, x);
    var r := Swap(s, i, i - 1);
    assert r[i - 1] == x;
    forall j | 0 <= j < i - 1 ensures r[j] != x {
      assert r[j] == s[j];
    }
    FirstAt(r, x, i - 1);
  }

  /** The first occurrence, characterised. */
  lemma FirstAt(s: seq<string>, x: string, i: nat)
    requires i < |s| && s[i] == x && forall j :: 0 <= j < i ==> s[j] != x
    ensures IndexOf(s, x) == i
  {
  }

  /** The facts MoveUpThenDown relies on to state its round trip. */
  ghost predicate MovedUpSpecHolds(d: Dict, g: string)
    requires d.Valid() && g in d.vals
  {
    MovedUp(d, g).Valid() && g in MovedUp(d, g).vals
  }

  // ---------------------------------------------------------------------
  // Adding, renaming and deleting a group

  /** add_group: a new name goes last with an empty task list. */
  function AddedGroup(d: Dict, name: string): (r: Dict)
    requires name !in d.vals
    ensures d.Valid() ==> r.Valid()
    ensures r.keys == d.keys + [name] && r.vals == d.vals[name := []]
  {
    Put(d, name, [])
  }

  /** The key the rename loop files a group under. */
  function RenameKey(k: string, oldName: string, newName: string): string {
    if k == oldName then newName else k
  }

  /** The rename loop: every (key, list) of `ks` put in order into `acc`,
      under its renamed key. */
  function RebuildRenamed(acc: Dict, ks: seq<string>, vals: map<string, seq<string>>, oldName: string, newName: string): Dict
    requires forall k :: k in ks ==> k in vals
    decreases |ks|
  {
    if |ks| == 0 then acc
    else RebuildRenamed(Put(acc, RenameKey(ks[0], oldName, newName), vals[ks[0]]), ks[1..], vals, oldName, newName)
  }

  /** edit_group_name: the table rebuilt with `oldName` filed as `newName`. */
  function Renamed(d: Dict, oldName: string, newName: string): Dict
    requires forall k :: k in d.keys ==> k in d.vals
  {
    RebuildRenamed(Empty, d.keys, d.vals, oldName, newName)
  }

  /** The keys of `ks`, renamed. */
  function RenamedKeys(ks: seq<string>, oldName: string, newName: string): (r: seq<string>)
    ensures |r| == |ks|
    decreases |ks|
  {
    if |ks| == 0 then [] else [RenameKey(ks[0], oldName, newName)] + RenamedKeys(ks[1..], oldName, newName)
  }

  /** Each key renamed in place. */
  lemma {:induction false} RenamedKeysIndex(ks: seq<string>, oldName: string, newName: string)
    ensures forall i :: 0 <= i < |ks| ==> RenamedKeys(ks, oldName, newName)[i] == RenameKey(ks[i], oldName, newName)
    decreases |ks|
  {
    if |ks| > 0 {
      RenamedKeysIndex(ks[1..], oldName, newName);
      var r := RenamedKeys(ks, oldName, newName);
      forall i | 1 <= i < |ks| ensures r[i] == RenameKey(ks[i], oldName, newName) {
        assert r[i] == RenamedKeys(ks[1..], oldName, newName)[i - 1] && ks[1..][i - 1] == ks[i];
      }
    }
  }

  /** The rename loop keeps the table well formed. */
  lemma {:induction false} RebuildValid(acc: Dict, ks: seq<string>, vals: map<string, seq<string>>, oldName: string, newName: string)
    requires acc.Valid() && forall k :: k in ks ==> k in vals
    ensures RebuildRenamed(acc, ks, vals, oldName, newName).Valid()
    decreases |ks|
  {
    if |ks| > 0 {
      RebuildValid(Put(acc, RenameKey(ks[0], oldName, newName), vals[ks[0]]), ks[1..], vals, oldName, newName);
    }
  }

  /** While no two keys are renamed alike, every key of `ks` is appended to
      `acc` under its new name... */
  lemma {:induction false} RebuildFreshKeys(acc: Dict, ks: seq<string>, vals: map<string, seq<string>>, oldName: string, newName: string)
    requires Distinct(ks) && (newName !in ks || oldName !in ks)
    requires forall k :: k in ks ==> k in vals && RenameKey(k, oldName, newName) !in acc.vals
    ensures RebuildRenamed(acc, ks, vals, oldName, newName).keys == acc.keys + RenamedKeys(ks, oldName, newName)
    decreases |ks|
  {
    if |ks| > 0 {
      var r0 := RenameKey(ks[0], oldName, newName);
      FreshStep(acc, ks, vals, oldName, newName);
      RebuildFreshKeys(Put(acc, r0, vals[ks[0]]), ks[1..], vals, oldName, newName);
      assert (acc.keys + [r0]) + RenamedKeys(ks[1..], oldName, newName)
          == acc.keys + ([r0] + RenamedKeys(ks[1..], oldName, newName));
    }
  }

  /** ... with its own list, and what `acc` held is kept. */
  lemma {:induction false} RebuildFreshVals(acc: Dict, ks: seq<string>, vals: map<string, seq<string>>, oldName: string, newName: string)
    requires Distinct(ks) && (newName !in ks || oldName !in ks)
    requires forall k :: k in ks ==> k in vals && RenameKey(k, oldName, newName) !in acc.vals
    ensures forall k :: k in acc.vals ==>
      k in RebuildRenamed(acc, ks, vals, oldName, newName).vals && RebuildRenamed(acc, ks, vals, oldName, newName).vals[k] == acc.vals[k]
    ensures forall k :: k in ks ==>
      RenameKey(k, oldName, newName) in RebuildRenamed(acc, ks, vals, oldName, newName).vals
      && RebuildRenamed(acc, ks, vals, oldName, newName).vals[RenameKey(k, oldName, newName)] == vals[k]
    decreases |ks|
  {
    if |ks| > 0 {
      FreshStep(acc, ks, vals, oldName, newName);
      RebuildFreshVals(Put(acc, RenameKey(ks[0], oldName, newName), vals[ks[0]]), ks[1..], vals, oldName, newName);
    }
  }

  /** The rename loop adds no name but the new one. */
  lemma {:induction false} RebuildRenamedNames(acc: Dict, ks: seq<string>, vals: map<string, seq<string>>, oldName: string, newName: string)
    requires forall k :: k in ks ==> k in vals
    ensures forall k :: k in RebuildRenamed(acc, ks, vals, oldName, newName).vals ==>
      k in acc.vals || k == newName || (k in ks && k != oldName)
    decreases |ks|
  {
    if |ks| > 0 {
      RebuildRenamedNames(Put(acc, RenameKey(ks[0], oldName, newName), vals[ks[0]]), ks[1..], vals, oldName, newName);
    }
  }

  /** Whatever the names, a rename keeps the table well formed and every
      name it holds afterwards is the new name or one of the other names it
      held before. */
  lemma RenamedNames(d: Dict, oldName: string, newName: string)
    requires d.Valid()
    ensures Renamed(d, oldName, newName).Valid()
    ensures forall k :: k in Renamed(d, oldName, newName).vals ==> k == newName || (k in d.vals && k != oldName)
  {
    RebuildValid(Empty, d.keys, d.vals, oldName, newName);
    RebuildRenamedNames(Empty, d.keys, d.vals, oldName, newName);
  }

  /** Among distinct keys only the one at the position of `oldName` is
      renamed. */
  lemma RenamedKeysAt(ks: seq<string>, oldName: string, newName: string)
    requires Distinct(ks) && oldName in ks
    ensures RenamedKeys(ks, oldName, newName) == ks[IndexOf(ks, oldName) := newName]
  {
    var idx := IndexOf(ks, oldName);
    DistinctIsApart(ks);
    RenamedKeysIndex(ks, oldName, newName);
    forall i | 0 <= i < |ks| && i != idx ensures ks[i] != oldName {
    }
  }

  /** The values of a rename onto a fresh name. */
  lemma RenamedValsFresh(d: Dict, r: Dict, oldName: string, newName: string)
    requires d.Valid() && oldName in d.vals && newName !in d.vals && r.Valid()
    requires r.keys == d.keys[IndexOf(d.keys, oldName) := newName]
    requires forall k :: k in d.keys ==>
      RenameKey(k, oldName, newName) in r.vals && r.vals[RenameKey(k, oldName, newName)] == d.vals[k]
    ensures r.vals == (d.vals - {oldName})[newName := d.vals[oldName]]
  {
    var want := (d.vals - {oldName})[newName := d.vals[oldName]];
    RenamedDomainFresh(d, r, oldName, newName);
    assert RenameKey(oldName, oldName, newName) == newName;
    forall k | k in r.vals ensures k in want && r.vals[k] == want[k] {
      if k != newName {
        assert k in d.keys && RenameKey(k, oldName, newName) == k;
      }
    }
    assert r.vals == want;
  }

  lemma RenamedDomainFresh(d: Dict, r: Dict, oldName: string, newName: string)
    requires d.Valid() && oldName in d.vals && newName !in d.vals && r.Valid()
    requires r.keys == d.keys[IndexOf(d.keys, oldName) := newName]
    ensures forall k :: k in r.vals <==> (k in d.vals && k != oldName) || k == newName
  {
    var idx := IndexOf(d.keys, oldName);
    DistinctIsApart(d.keys);
    forall k ensures k in r.vals <==> (k in d.vals && k != oldName) || k == newName {
      if k in r.vals {
        assert k in r.keys;
        var i :| 0 <= i < |r.keys| && r.keys[i] == k;
        if i != idx {
          assert d.keys[i] == k && d.keys[idx] == oldName;
        }
      }
      if k in d.vals && k != oldName {
        assert k in d.keys;
        var i :| 0 <= i < |d.keys| && d.keys[i] == k;
        assert i != idx && r.keys[i] == k;
      }
      if k == newName {
        assert r.keys[idx] == newName;
      }
    }
  }

  /** The condition of RebuildFreshKeys and RebuildFreshVals carries over to the rest of the keys. */
  lemma FreshStep(acc: Dict, ks: seq<string>, vals: map<string, seq<string>>, oldName: string, newName: string)
    requires |ks| > 0 && Distinct(ks) && (newName !in ks || oldName !in ks)
    requires forall k :: k in ks ==> k in vals && RenameKey(k, oldName, newName) !in acc.vals
    ensures Distinct(ks[1..]) && (newName !in ks[1..] || oldName !in ks[1..])
    ensures forall k :: k in ks[1..] ==>
      k in vals && RenameKey(k, oldName, newName) !in Put(acc, RenameKey(ks[0], oldName, newName), vals[ks[0]]).vals
  {
    var r0 := RenameKey(ks[0], oldName, newName);
    forall k | k in ks[1..] ensures k in ks && k != ks[0] {
      var j :| 0 <= j < |ks[1..]| && ks[1..][j] == k;
      assert ks[j + 1] == k;
    }
  }

  /** Renaming a group to a name not yet in use keeps the group where it was
      with its own task list; no other group changes and the number of
      groups stays the same. */
  lemma RenameToFreshName(d: Dict, oldName: string, newName: string)
    requires d.Valid() && oldName in d.vals && newName !in d.vals
    ensures Renamed(d, oldName, newName).Valid()
    ensures Renamed(d, oldName, newName).keys == d.keys[IndexOf(d.keys, oldName) := newName]
    ensures Renamed(d, oldName, newName).vals == (d.vals - {oldName})[newName := d.vals[oldName]]
  {
    RenamedNames(d, oldName, newName);
    RenameFreshKeys(d, oldName, newName);
    RenameFreshVals(d, oldName, newName);
  }

  lemma RenameFreshKeys(d: Dict, oldName: string, newName: string)
    requires d.Valid() && oldName in d.vals && newName !in d.vals
    ensures Renamed(d, oldName, newName).keys == d.keys[IndexOf(d.keys, oldName) := newName]
  {
    RebuildFreshKeys(Empty, d.keys, d.vals, oldName, newName);
    RenamedKeysAt(d.keys, oldName, newName);
  }

  lemma RenameFreshVals(d: Dict, oldName: string, newName: string)
    requires d.Valid() && oldName in d.vals && newName !in d.vals
    ensures Renamed(d, oldName, newName).vals == (d.vals - {oldName})[newName := d.vals[oldName]]
  {
    RebuildValid(Empty, d.keys, d.vals, oldName, newName);
    RenameFreshKeys(d, oldName, newName);
    RebuildFreshVals(Empty, d.keys, d.vals, oldName, newName);
    RenamedValsFresh(d, Renamed(d, oldName, newName), oldName, newName);
  }

  /** Renaming a name that is not a group, to a name that is not one either,
      leaves the table as it is. */
  lemma RenameMissingName(d: Dict, oldName: string, newName: string)
    requires d.Valid() && oldName !in d.vals && newName !in d.vals
    ensures Renamed(d, oldName, newName) == d
  {
    RebuildValid(Empty, d.keys, d.vals, oldName, newName);
    RenameMissingKeys(d, oldName, newName);
    RenameMissingVals(d, oldName, newName);
    SameTable(Renamed(d, oldName, newName), d);
  }

  lemma RenameMissingKeys(d: Dict, oldName: string, newName: string)
    requires d.Valid() && oldName !in d.vals && newName !in d.vals
    ensures Renamed(d, oldName, newName).keys == d.keys
  {
    RebuildFreshKeys(Empty, d.keys, d.vals, oldName, newName);
    var ks := RenamedKeys(d.keys, oldName, newName);
    RenamedKeysIndex(d.keys, oldName, newName);
    forall i | 0 <= i < |d.keys| ensures ks[i] == d.keys[i] {
      assert d.keys[i] in d.vals;
    }
  }

  lemma RenameMissingVals(d: Dict, oldName: string, newName: string)
    requires d.Valid() && oldName !in d.vals && newName !in d.vals
    ensures forall k :: k in d.keys ==>
      k in Renamed(d, oldName, newName).vals && Renamed(d, oldName, newName).vals[k] == d.vals[k]
  {
    RebuildFreshVals(Empty, d.keys, d.vals, oldName, newName);
    forall k | k in d.keys ensures RenameKey(k, oldName, newName) == k {
    }
  }

  /** Two well-formed tables with the same names and lists are equal. */
  lemma SameTable(r: Dict, d: Dict)
    requires r.Valid() && d.Valid() && r.keys == d.keys
    requires forall k :: k in d.keys ==> r.vals[k] == d.vals[k]
    ensures r == d
  {
    assert r.vals == d.vals;
  }

  /** The later of the positions of `a` and `b`. */
  function Later(ks: seq<string>, a: string, b: string): nat
    requires a in ks && b in ks
  {
    if IndexOf(ks, a) < IndexOf(ks, b) then IndexOf(ks, b) else IndexOf(ks, a)
  }

  /** Renaming a group onto the name of another group is not refused: the
      two entries collapse into one, at the earlier of the two positions,
      holding the list of whichever name came later; the other list is
      lost and the table has one group fewer. */
  lemma RenameOntoExistingName(d: Dict, oldName: string, newName: string)
    requires d.Valid() && oldName in d.vals && newName in d.vals && oldName != newName
    ensures Renamed(d, oldName, newName).Valid()
    ensures |Renamed(d, oldName, newName).keys| == |d.keys| - 1
    ensures Renamed(d, oldName, newName).keys
         == d.keys[IndexOf(d.keys, oldName) := newName][..Later(d.keys, oldName, newName)]
          + d.keys[Later(d.keys, oldName, newName) + 1..]
    ensures Renamed(d, oldName, newName).vals
         == (d.vals - {oldName})[newName := d.vals[d.keys[Later(d.keys, oldName, newName)]]]
  {
    var ks := d.keys;
    var hi := Later(ks, oldName, newName);
    var p, x, s := ks[..hi], ks[hi], ks[hi + 1..];
    assert ks == p + ([x] + s);
    assert ([x] + s)[0] == x && ([x] + s)[1..] == s;
    RebuildSplit(Empty, p, [x] + s, d.vals, oldName, newName);
    MergePrefix(d, oldName, newName);
    var a1 := RebuildRenamed(Empty, p, d.vals, oldName, newName);
    var a2 := Put(a1, newName, d.vals[x]);
    assert RebuildRenamed(a1, [x] + s, d.vals, oldName, newName) == RebuildRenamed(a2, s, d.vals, oldName, newName);
    MergeSuffix(d, oldName, newName, a2);
    RenamedNames(d, oldName, newName);
    MergeVals(d, oldName, newName, a2, Renamed(d, oldName, newName));
  }

  /** The rename loop over `ks1 + ks2` is the loop over `ks1` followed by the
      loop over `ks2`. */
  lemma {:induction false} RebuildSplit(acc: Dict, ks1: seq<string>, ks2: seq<string>, vals: map<string, seq<string>>, oldName: string, newName: string)
    requires (forall k :: k in ks1 ==> k in vals) && (forall k :: k in ks2 ==> k in vals)
    ensures RebuildRenamed(acc, ks1 + ks2, vals, oldName, newName)
         == RebuildRenamed(RebuildRenamed(acc, ks1, vals, oldName, newName), ks2, vals, oldName, newName)
    decreases |ks1|
  {
    if |ks1| == 0 {
      assert ks1 + ks2 == ks2;
    } else {
      assert (ks1 + ks2)[1..] == ks1[1..] + ks2;
      RebuildSplit(Put(acc, RenameKey(ks1[0], oldName, newName), vals[ks1[0]]), ks1[1..], ks2, vals, oldName, newName);
    }
  }

  /** Before the later of the two names the loop meets only the earlier one:
      it files that one as `newName` and every other key as itself. */
  lemma MergePrefix(d: Dict, oldName: string, newName: string)
    requires d.Valid() && oldName in d.vals && newName in d.vals && oldName != newName
    ensures var p := d.keys[..Later(d.keys, oldName, newName)];
      var a := RebuildRenamed(Empty, p, d.vals, oldName, newName);
      a.Valid() && newName in a.vals
      && a.keys == d.keys[IndexOf(d.keys, oldName) := newName][..Later(d.keys, oldName, newName)]
      && (forall k :: k in a.vals ==> k == newName || (k in p && k != oldName))
      && (forall k :: k in p && k != oldName ==> k in a.vals && a.vals[k] == d.vals[k])
  {
    var p := d.keys[..Later(d.keys, oldName, newName)];
    DistinctIsApart(d.keys);
    var lo := PrefixShape(d.keys, oldName, newName);
    DistinctIsApart(p);
    PrefixKeys(d.keys, oldName, newName);
    RebuildValid(Empty, p, d.vals, oldName, newName);
    RebuildFreshKeys(Empty, p, d.vals, oldName, newName);
    RebuildFreshVals(Empty, p, d.vals, oldName, newName);
    RebuildRenamedNames(Empty, p, d.vals, oldName, newName);
  }

  /** The keys before the later name are distinct and hold only the earlier
      of the two names, at `lo`. */
  lemma PrefixShape(ks: seq<string>, oldName: string, newName: string) returns (lo: nat)
    requires Apart(ks) && oldName in ks && newName in ks && oldName != newName
    ensures Apart(ks[..Later(ks, oldName, newName)])
    ensures newName !in ks[..Later(ks, oldName, newName)] || oldName !in ks[..Later(ks, oldName, newName)]
    ensures lo < Later(ks, oldName, newName) && RenameKey(ks[lo], oldName, newName) == newName
  {
    var io, inew := IndexOf(ks, oldName), IndexOf(ks, newName);
    var hi := Later(ks, oldName, newName);
    var p := ks[..hi];
    lo := if io < inew then io else inew;
    forall j | 0 <= j < hi ensures p[j] != ks[hi] {
    }
    assert ks[hi] !in p;
  }

  /** Renaming the keys before the later name renames exactly the position of
      `oldName`, if it is among them. */
  lemma PrefixKeys(ks: seq<string>, oldName: string, newName: string)
    requires Apart(ks) && oldName in ks && newName in ks && oldName != newName
    ensures RenamedKeys(ks[..Later(ks, oldName, newName)], oldName, newName)
         == ks[IndexOf(ks, oldName) := newName][..Later(ks, oldName, newName)]
  {
    var io := IndexOf(ks, oldName);
    var hi := Later(ks, oldName, newName);
    var p := ks[..hi];
    var want := ks[io := newName][..hi];
    RenamedKeysIndex(p, oldName, newName);
    forall i | 0 <= i < hi ensures RenamedKeys(p, oldName, newName)[i] == want[i] {
      if i != io {
        assert ks[i] != ks[io];
      }
    }
  }

  /** After the later of the two names the loop meets neither of them, nor
      any key met before, so it appends every key as itself. */
  lemma MergeSuffix(d: Dict, oldName: string, newName: string, acc: Dict)
    requires d.Valid() && oldName in d.vals && newName in d.vals && oldName != newName
    requires forall k :: k in acc.vals ==> k == newName || k in d.keys[..Later(d.keys, oldName, newName)]
    ensures var s := d.keys[Later(d.keys, oldName, newName) + 1..];
      var r := RebuildRenamed(acc, s, d.vals, oldName, newName);
      r.keys == acc.keys + s
      && (forall k :: k in acc.vals ==> k in r.vals && r.vals[k] == acc.vals[k])
      && (forall k :: k in s ==> k in r.vals && r.vals[k] == d.vals[k])
  {
    var hi := Later(d.keys, oldName, newName);
    var s := d.keys[hi + 1..];
    assert Distinct(s) && newName !in s && oldName !in s
        && forall k :: k in s ==> k in d.vals && RenameKey(k, oldName, newName) !in acc.vals
    by {
      DistinctIsApart(d.keys);
      SuffixShape(d.keys, oldName, newName);
      DistinctIsApart(s);
    }
    RebuildFreshKeys(acc, s, d.vals, oldName, newName);
    RebuildFreshVals(acc, s, d.vals, oldName, newName);
    RenamedKeysIndex(s, oldName, newName);
    forall i | 0 <= i < |s| ensures RenamedKeys(s, oldName, newName)[i] == s[i] {
      assert s[i] != oldName;
    }
  }

  /** The keys after the later name are distinct, neither of the two names,
      and none of the keys before it. */
  lemma SuffixShape(ks: seq<string>, oldName: string, newName: string)
    requires Apart(ks) && oldName in ks && newName in ks && oldName != newName
    ensures Apart(ks[Later(ks, oldName, newName) + 1..])
    ensures forall k :: k in ks[Later(ks, oldName, newName) + 1..] ==>
      k != oldName && k != newName && k !in ks[..Later(ks, oldName, newName)]
  {
    var io, inew := IndexOf(ks, oldName), IndexOf(ks, newName);
    var hi := Later(ks, oldName, newName);
    var s := ks[hi + 1..];
    forall j | 0 <= j < |s| ensures s[j] != oldName && s[j] != newName && s[j] !in ks[..hi] {
      assert s[j] == ks[hi + 1 + j];
      assert ks[io] == oldName && ks[inew] == newName;
      forall i | 0 <= i < hi ensures ks[..hi][i] != s[j] {
      }
    }
  }

  /** The lists after a merge: the later name's list under `newName`, every
      other group's own list. */
  lemma MergeVals(d: Dict, oldName: string, newName: string, a2: Dict, r: Dict)
    requires d.Valid() && oldName in d.vals && newName in d.vals && oldName != newName
    requires var p := d.keys[..Later(d.keys, oldName, newName)];
      forall k :: k in p && k != oldName && k != newName ==> k in a2.vals && a2.vals[k] == d.vals[k]
    requires newName in a2.vals && a2.vals[newName] == d.vals[d.keys[Later(d.keys, oldName, newName)]]
    requires forall k :: k in r.vals ==> k == newName || (k in d.vals && k != oldName)
    requires forall k :: k in a2.vals ==> k in r.vals && r.vals[k] == a2.vals[k]
    requires forall k :: k in d.keys[Later(d.keys, oldName, newName) + 1..] ==> k in r.vals && r.vals[k] == d.vals[k]
    ensures r.vals == (d.vals - {oldName})[newName := d.vals[d.keys[Later(d.keys, oldName, newName)]]]
  {
    var ks := d.keys;
    var hi := Later(ks, oldName, newName);
    var want := (d.vals - {oldName})[newName := d.vals[ks[hi]]];
    forall k | k in want ensures k in r.vals && r.vals[k] == want[k] {
      if k != newName {
        SplitMembers(ks, hi, k);
      }
    }
    assert r.vals == want;
  }

  /** A member of `ks` other than `ks[hi]` is before or after position `hi`. */
  lemma SplitMembers(ks: seq<string>, hi: nat, k: string)
    requires hi < |ks| && k in ks && k != ks[hi]
    ensures k in ks[..hi] || k in ks[hi + 1..]
  {
    var j :| 0 <= j < |ks| && ks[j] == k;
    if j < hi {
      assert ks[..hi][j] == k;
    } else {
      assert ks[hi + 1..][j - hi - 1] == k;
    }
  }

  /** delete_group: the name and its list are gone, the table stays well
      formed, and the other groups keep their lists and their order. */
  function Removed(d: Dict, g: string): (r: Dict)
    requires d.Valid() && g in d.vals
    ensures r.Valid() && g !in r.vals && g !in r.keys
    ensures forall k :: k in r.vals <==> k in d.vals && k != g
    ensures forall k :: k in r.vals ==> r.vals[k] == d.vals[k]
    ensures |r.keys| == |d.keys| - 1
    ensures r.keys == d.keys[..IndexOf(d.keys, g)] + d.keys[IndexOf(d.keys, g) + 1..]
  {
    RemoveFirstDistinct(d.keys, g);
    Dict(RemoveFirst(d.keys, g), d.vals - {g})
  }

  /** Taking a name out of distinct names leaves exactly the others, still
      distinct and in order. */
  lemma RemoveFirstDistinct(s: seq<string>, x: string)
    requires Distinct(s) && x in s
    ensures Distinct(RemoveFirst(s, x))
    ensures forall k :: k in RemoveFirst(s, x) <==> k in s && k != x
  {
    var i := IndexOf(s, x);
    DropDistinct(s, i);
    DropMembers(s, i);
  }

  lemma DropDistinct(s: seq<string>, i: nat)
    requires Distinct(s) && i < |s|
    ensures Distinct(s[..i] + s[i + 1..])
  {
    var r := s[..i] + s[i + 1..];
    DistinctIsApart(s);
    DistinctIsApart(r);
    forall a, b | 0 <= a < b < |r| ensures r[a] != r[b] {
      var a' := if a < i then a else a + 1;
      var b' := if b < i then b else b + 1;
      assert r[a] == s[a'] && r[b] == s[b'];
    }
  }

  lemma DropMembers(s: seq<string>, i: nat)
    requires Distinct(s) && i < |s|
    ensures forall k :: k in s[..i] + s[i + 1..] <==> k in s && k != s[i]
  {
    var r := s[..i] + s[i + 1..];
    forall k | k in s && k != s[i] ensures k in r {
      var j :| 0 <= j < |s| && s[j] == k;
      assert r[if j < i then j else j - 1] == k;
    }
    assert Apart(s) by {
      DistinctIsApart(s);
    }
    forall k | k in r ensures k in s && k != s[i] {
      var j :| 0 <= j < |r| && r[j] == k;
      var j' := if j < i then j else j + 1;
      assert k == s[j'] && j' != i;
    }
  }

  // ---------------------------------------------------------------------
  // Editing a group's task list

  /** The group's list replaced, everything else kept. */
  function WithTasks(d: Dict, g: string, tasks: seq<string>): (r: Dict)
    requires g in d.vals
    ensures d.Valid() ==> r.Valid()
    ensures r.keys == d.keys && r.vals == d.vals[g := tasks]
  {
    Dict(d.keys, d.vals[g := tasks])
  }

  /** move_task_up: the task changes places with the one before it. */
  function MovedTaskUp(tasks: seq<string>, t: string): seq<string>
    requires t in tasks
  {
    var idx := IndexOf(tasks, t);
    if idx > 0 then Swap(tasks, idx, idx - 1) else tasks
  }

  /** move_task_down: the task changes places with the one after it. */
  function MovedTaskDown(tasks: seq<string>, t: string): seq<string>
    requires t in tasks
  {
    var idx := IndexOf(tasks, t);
    if idx < |tasks| - 1 then Swap(tasks, idx, idx + 1) else tasks
  }

  /** move_task_up keeps the list's length and its tasks, moves the task one
      place towards the front, and does nothing to the first task. */
  lemma TaskMoveUpSpec(tasks: seq<string>, t: string)
    requires t in tasks
    ensures multiset(MovedTaskUp(tasks, t)) == multiset(tasks)
    ensures IndexOf(tasks, t) == 0 ==> MovedTaskUp(tasks, t) == tasks
    ensures IndexOf(tasks, t) > 0 ==> MovedTaskUp(tasks, t) == Swap(tasks, IndexOf(tasks, t), IndexOf(tasks, t) - 1)
  {
    var idx := IndexOf(tasks, t);
    if idx > 0 {
      SwapPermutes(tasks, idx, idx - 1);
    }
  }

  /** move_task_down: the same towards the end; the last task stays. */
  lemma TaskMoveDownSpec(tasks: seq<string>, t: string)
    requires t in tasks
    ensures multiset(MovedTaskDown(tasks, t)) == multiset(tasks)
    ensures IndexOf(tasks, t) == |tasks| - 1 ==> MovedTaskDown(tasks, t) == tasks
    ensures IndexOf(tasks, t) < |tasks| - 1 ==> MovedTaskDown(tasks, t) == Swap(tasks, IndexOf(tasks, t), IndexOf(tasks, t) + 1)
  {
    var idx := IndexOf(tasks, t);
    if idx < |tasks| - 1 {
      SwapPermutes(tasks, idx, idx + 1);
    }
  }

  /** Down undoes up for a task that is not first, even with duplicates:
      after the move its first occurrence is the moved one. */
  lemma TaskMoveUpThenDown(tasks: seq<string>, t: string)
    requires t in tasks && IndexOf(tasks, t) > 0
    ensures t in MovedTaskUp(tasks, t) && MovedTaskDown(MovedTaskUp(tasks, t), t) == tasks
  {
    var idx := IndexOf(tasks, t);
    SwapToFront(tasks, t);
    SwapTwice(tasks, idx, idx - 1);
  }

  /** edit_task: the first occurrence of `oldName` replaced by `newName`. */
  function EditedTasks(tasks: seq<string>, oldName: string, newName: string): (r: seq<string>)
    requires oldName in tasks
    ensures |r| == |tasks| && r[IndexOf(tasks, oldName)] == newName
    ensures forall i :: 0 <= i < |tasks| && i != IndexOf(tasks, oldName) ==> r[i] == tasks[i]
  {
    tasks[IndexOf(tasks, oldName) := newName]
  }

  /** edit_task does not check the new name against the list: renaming a
      task to the name of another task leaves the name in the list twice. */
  lemma EditTaskCanDuplicate(tasks: seq<string>, oldName: string, newName: string)
    requires oldName in tasks && newName in tasks && newName != oldName
    ensures multiset(EditedTasks(tasks, oldName, newName))[newName] >= 2
    ensures !Distinct(EditedTasks(tasks, oldName, newName))
  {
    var r := EditedTasks(tasks, oldName, newName);
    var i := IndexOf(tasks, oldName);
    var j := IndexOf(tasks, newName);
    var lo, hi := if i < j then i else j, if i < j then j else i;
    assert r[i] == newName && r[j] == newName && lo < hi;
    assert r == r[..hi] + r[hi..];
    assert r[..hi][lo] == newName && r[hi..][0] == newName;
    assert multiset(r)[newName] == multiset(r[..hi])[newName] + multiset(r[hi..])[newName];
    DistinctIsApart(r);
  }
}
