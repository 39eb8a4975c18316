// Merging managed settings into a user's file, and taking them out again.
module Settings {
  import opened Wrappers

  // A JSON object, or any other value: a scalar or a list.
  datatype Json<V> = Leaf(value: V) | Object(members: Members<V>)

  type Members<V> = map<string, Json<V>>

  // How the language compares two values of one type. A not-a-number value is
  // not even equal to itself.
  type Equality<!V> = (V, V) -> bool

  // ----- merge -----

  function Merged<V>(existing: Json<V>, desired: Json<V>): (m: Json<V>)
    ensures existing.Object? && desired.Object? ==> m.Object?
    decreases desired
  {
    if !existing.Object? || !desired.Object? then desired
    else
      var e, d := existing.members, desired.members;
      Object(map key | key in e.Keys + d.Keys ::
        if key !in d then e[key] else if key in e then Merged(e[key], d[key]) else d[key])
  }

  // The members once the keys in `done` have been merged.
  ghost predicate MergedSoFar<V(!new)>(e: Members<V>, d: Members<V>, done: set<string>, now: Members<V>)
  {
    && now.Keys == e.Keys + done
    && (forall key :: key in now && key !in done ==> now[key] == e[key])
    && (forall key :: key in done && key in d && key in now ==>
      now[key] == if key in e then Merged(e[key], d[key]) else d[key])
  }

  lemma MergedAll<V(!new)>(e: Members<V>, d: Members<V>, now: Members<V>)
    requires MergedSoFar(e, d, d.Keys, now)
    ensures Object(now) == Merged(Object(e), Object(d))
  {
    assert now == Merged(Object(e), Object(d)).members;
  }

  method Merge<V(!new)>(existing: Members<V>, desired: Members<V>) returns (result: Members<V>)
    ensures Object(result) == Merged(Object(existing), Object(desired))
    decreases Object(desired)
  {
    result := existing;
    var rest := desired.Keys;
    while rest != {}
      invariant rest <= desired.Keys
      invariant MergedSoFar(existing, desired, desired.Keys - rest, result)
      decreases |rest|
    {
      var key :| key in rest;
      var value := desired[key];
      if value.Object? && key in result && result[key].Object? {
        var merged := Merge(result[key].members, value.members);
        result := result[key := Object(merged)];
      } else {
        result := result[key := value];
      }
      rest := rest - {key};
    }
    assert desired.Keys - rest == desired.Keys;
    MergedAll(existing, desired, result);
  }

  // ----- remove -----

  // `None` when the value itself goes.
  function Removed<V>(existing: Json<V>, obsolete: Json<V>, same: Equality<V>): (r: Option<Json<V>>)
    ensures existing.Object? && obsolete.Object? ==> r.Some? && r.value.Object?
    decreases obsolete
  {
    if existing.Object? && obsolete.Object? then
      var e, d := existing.members, obsolete.members;
      Some(Object(map key | key in e && (key !in d || Removed(e[key], d[key], same).Some?) ::
        if key in d then Removed(e[key], d[key], same).value else e[key]))
    else if existing.Leaf? && obsolete.Leaf? && same(existing.value, obsolete.value) then None
    else Some(existing)
  }

  predicate Stays<V>(e: Members<V>, d: Members<V>, same: Equality<V>, key: string)
    requires key in e
  {
    key in d ==> Removed(e[key], d[key], same).Some?
  }

  // The members once the keys in `done` have been removed.
  ghost predicate RemovedSoFar<V(
    !new)>(e: Members<V>, d: Members<V>, same: Equality<V>, done: set<string>, now: Members<V>)
  {
    && now.Keys <= e.Keys
    && (forall key :: key in e && key !in done ==> key in now && now[key] == e[key])
    && (forall key :: key in e && key in done && key in d ==> (key in now <==> Stays(e, d, same, key)))
    && (forall key :: key in now && key in e && key in done && key in d && Stays(e, d, same, key) ==>
      now[key] == Removed(e[key], d[key], same).value)
  }

  lemma RemovedAll<V(!new)>(e: Members<V>, d: Members<V>, same: Equality<V>, now: Members<V>)
    requires RemovedSoFar(e, d, same, d.Keys, now)
    ensures Removed(Object(e), Object(d), same) == Some(Object(now))
  {
    var r := Removed(Object(e), Object(d), same).value.members;
    forall key ensures key in r <==> key in now {
      if key in e { assert Stays(e, d, same, key) <==> key in r; }
    }
    assert now == r;
  }

  method RemoveObsolete<V(!new)>(existing: Members<V>, obsolete: Members<V>, same: Equality<V>)
    returns (result: Members<V>)
    ensures Removed(Object(existing), Object(obsolete), same) == Some(Object(result))
    decreases Object(obsolete)
  {
    result := existing;
    var rest := obsolete.Keys;
    while rest != {}
      invariant rest <= obsolete.Keys
      invariant RemovedSoFar(existing, obsolete, same, obsolete.Keys - rest, result)
      decreases |rest|
    {
      var key :| key in rest;
      var value := obsolete[key];
      rest := rest - {key};
      if key !in result {
        continue;
      }
      if value.Object? && result[key].Object? {
        var removed := RemoveObsolete(result[key].members, value.members, same);
        result := result[key := Object(removed)];
      } else if value.Leaf? && result[key].Leaf? && same(result[key].value, value.value) {
        result := result - {key};
      }
    }
    assert obsolete.Keys - rest == obsolete.Keys;
    RemovedAll(existing, obsolete, same, result);
  }

  // ----- paths -----

  function At<V>(j: Json<V>, path: seq<string>): Option<Json<V>>
    decreases |path|
  {
    if path == [] then Some(j)
    else if j.Object? && path[0] in j.members then At(j.members[path[0]], path[1..])
    else None
  }

  ghost predicate LeafAt<V(!new)>(j: Json<V>, path: seq<string>)
  {
    At(j, path).Some? && At(j, path).value.Leaf?
  }

  // The path leaves the tree at an object that lacks the next key.
  ghost predicate Outside<V(!new)>(j: Json<V>, path: seq<string>)
    decreases |path|
  {
    path != [] && j.Object? && (path[0] in j.members ==> Outside(j.members[path[0]], path[1..]))
  }

  // The path runs on beyond a leaf.
  ghost predicate Beyond<V(!new)>(j: Json<V>, path: seq<string>)
  {
    exists k :: 0 <= k < |path| && LeafAt(j, path[..k])
  }

  lemma {:induction false} OutsideIsAbsent<V(!new)>(j: Json<V>, path: seq<string>)
    requires Outside(j, path)
    ensures At(j, path) == None
    decreases |path|
  {
    if path[0] in j.members { OutsideIsAbsent(j.members[path[0]], path[1..]); }
  }

  // Leaf, object, outside or beyond: there are no other paths.
  lemma {:induction false} PathKinds<V(!new)>(j: Json<V>, path: seq<string>)
    ensures At(j, path) == None <==> Outside(j, path) || Beyond(j, path)
    ensures !(Outside(j, path) && Beyond(j, path))
    decreases |path|
  {
    if path != [] {
      assert At(j, path[..0]) == Some(j);
      if j.Object? && path[0] in j.members {
        var next, rest := j.members[path[0]], path[1..];
        PathKinds(next, rest);
        forall k | 0 < k <= |path| ensures At(j, path[..k]) == At(next, rest[..k - 1]) {
          assert path[..k][1..] == rest[..k - 1];
        }
        if Beyond(next, rest) {
          var k :| 0 <= k < |rest| && LeafAt(next, rest[..k]);
          assert LeafAt(j, path[..k + 1]);
        }
        if Beyond(j, path) {
          var k :| 0 <= k < |path| && LeafAt(j, path[..k]);
          assert LeafAt(next, rest[..k - 1]);
        }
      } else {
        assert j.Leaf? ==> LeafAt(j, path[..0]);
        forall k | 0 < k <= |path| ensures At(j, path[..k]) == None {
        }
      }
    }
  }

  // ----- what merging does -----

  // Every leaf of the desired tree is installed, nothing is left beyond it,
  // and every path outside the desired tree keeps what it had.
  lemma {:induction false} MergedAt<V(!new)>(e: Json<V>, d: Json<V>, path: seq<string>)
    ensures LeafAt(d, path) ==> At(Merged(e, d), path) == At(d, path)
    ensures Outside(d, path) ==> At(Merged(e, d), path) == At(e, path)
    ensures At(d, path).Some? && At(d, path).value.Object? ==>
      At(Merged(e, d), path).Some? && At(Merged(e, d), path).value.Object?
    decreases |path|
  {
    if Outside(d, path) && !e.Object? { OutsideIsAbsent(d, path); }
    if path != [] && d.Object? && path[0] in d.members {
      var key, rest := path[0], path[1..];
      if e.Object? && key in e.members {
        MergedAt(e.members[key], d.members[key], rest);
      } else if Outside(d, path) {
        OutsideIsAbsent(d.members[key], rest);
      }
    }
  }

  lemma {:induction false} NothingBeyond<V(!new)>(j: Json<V>, path: seq<string>, k: nat)
    requires k < |path| && LeafAt(j, path[..k])
    ensures At(j, path) == None
    decreases k
  {
    if k > 0 {
      assert path[..k][1..] == path[1..][..k - 1];
      NothingBeyond(j.members[path[0]], path[1..], k - 1);
    }
  }

  lemma MergedBeyond<V(!new)>(e: Json<V>, d: Json<V>, path: seq<string>)
    requires Beyond(d, path)
    ensures At(Merged(e, d), path) == None
  {
    var k :| 0 <= k < |path| && LeafAt(d, path[..k]);
    MergedAt(e, d, path[..k]);
    NothingBeyond(Merged(e, d), path, k);
  }

  lemma {:induction false} MergeIdempotent<V>(e: Json<V>, d: Json<V>)
    ensures Merged(Merged(e, d), d) == Merged(e, d)
    decreases d
  {
    var once := Merged(e, d);
    if d.Object? {
      forall key | key in d.members
        ensures key in once.members && Merged(once.members[key], d.members[key]) == once.members[key]
      {
        if e.Object? && key in e.members {
          MergeIdempotent(e.members[key], d.members[key]);
        } else {
          MergeWithItself(d.members[key]);
        }
      }
      assert Merged(once, d).members == once.members;
    }
  }

  lemma {:induction false} MergeWithItself<V>(d: Json<V>)
    ensures Merged(d, d) == d
    decreases d
  {
    if d.Object? {
      forall key | key in d.members ensures Merged(d.members[key], d.members[key]) == d.members[key] {
        MergeWithItself(d.members[key]);
      }
      assert Merged(d, d).members == d.members;
    }
  }

  // ----- what removing does -----

  function AtRemoved<V>(r: Option<Json<V>>, path: seq<string>): Option<Json<V>>
  {
    if r.None? then None else At(r.value, path)
  }

  // Obsolete leaves go, and paths outside the obsolete tree stay.
  lemma {:induction false} RemovedAt<V(!new)>(e: Json<V>, d: Json<V>, same: Equality<V>, path: seq<string>)
    ensures Outside(d, path) ==> AtRemoved(Removed(e, d, same), path) == At(e, path)
    ensures LeafAt(d, path) ==>
      AtRemoved(Removed(e, d, same), path) ==
      if LeafAt(e, path) && same(At(e, path).value.value, At(d, path).value.value) then None else At(e, path)
    decreases |path|
  {
    if path != [] && d.Object? && path[0] in d.members && e.Object? && path[0] in e.members {
      RemovedAt(e.members[path[0]], d.members[path[0]], same, path[1..]);
    }
  }

  // Installing and then removing: a managed leaf is gone exactly if its value
  // equals itself, and all paths outside the managed tree are as before.
  lemma RemoveAfterMerge<V(!new)>(e: Json<V>, d: Json<V>, same: Equality<V>, path: seq<string>)
    requires e.Object? && d.Object?
    ensures LeafAt(d, path) ==>
      var leaf := At(d, path).value.value;
      At(Removed(Merged(e, d), d, same).value, path) == None <==> same(leaf, leaf)
    ensures Outside(d, path) ==> At(Removed(Merged(e, d), d, same).value, path) == At(e, path)
  {
    MergedAt(e, d, path);
    RemovedAt(Merged(e, d), d, same, path);
  }

  // Installing a new version over an old one leaves no trace of old leaves that
  // the new version does not mention.
  lemma Upgrade<V(!new)>(e: Json<V>, old_: Json<V>, new_: Json<V>, same: Equality<V>, path: seq<string>)
    requires e.Object? && old_.Object? && new_.Object? && LeafAt(old_, path) && Outside(new_, path)
    ensures var now := Merged(Removed(Merged(e, old_), old_, same).value, new_);
      At(now, path) == None <==> same(At(old_, path).value.value, At(old_, path).value.value)
  {
    RemoveAfterMerge(e, old_, same, path);
    MergedAt(Removed(Merged(e, old_), old_, same).value, new_, path);
  }
}
