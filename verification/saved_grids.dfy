/** The named-snapshot store: a JavaScript `Map` from grid name to saved
    grid, kept here as the sequence of its entries in insertion order, which
    is also the array written to durable storage. */
module SavedGrids {
  import opened Results
  import opened Grids
  import Text

  /** Number of saved grids beyond which no save is accepted. */
  const MaxSavedGrids: nat := 20

  /** One saved grid: its name, a copy of the cells, the canvas width in
      pixels and the grid dimension at save time. */
  datatype Snapshot = Snapshot(name: string, arrayData: Grid, width: nat, dimension: nat)

  /** The entries of the map in insertion order. */
  type Store = seq<Snapshot>

  /** Why a save was refused. */
  datatype SaveError = CapacityExceeded | EmptyName | DuplicateName

  /** Why a load was refused. */
  datatype LoadError = NotFound

  /** The keys of the map. */
  function Keys(st: Store): set<string> {
    set i | 0 <= i < |st| :: st[i].name
  }

  /** No two entries share a key, as in any map. */
  predicate UniqueNames(st: Store) {
    forall i, j :: 0 <= i < j < |st| ==> st[i].name != st[j].name
  }

  /** The keys of a store with one more entry in front. */
  lemma KeysCons(x: Snapshot, st: Store)
    ensures Keys([x] + st) == {x.name} + Keys(st)
  {
    var xs := [x] + st;
    assert xs[0] == x;
    forall k | k in Keys(xs) ensures k in {x.name} + Keys(st) {
      var i :| 0 <= i < |xs| && xs[i].name == k;
      if i > 0 { assert xs[i] == st[i - 1]; }
    }
    forall k | k in Keys(st) ensures k in Keys(xs) {
      var i :| 0 <= i < |st| && st[i].name == k;
      assert xs[i + 1] == st[i];
    }
  }

  /** The keys of a sequence of entries are those of all but its last entry,
      plus the last entry's name. */
  lemma KeysSnoc(st: Store)
    requires |st| > 0
    ensures Keys(st) == Keys(st[..|st| - 1]) + {st[|st| - 1].name}
  {
    var n := |st| - 1;
    forall k | k in Keys(st) ensures k in Keys(st[..n]) + {st[n].name} {
      var i :| 0 <= i < |st| && st[i].name == k;
      if i < n { assert st[..n][i] == st[i]; }
    }
    forall k | k in Keys(st[..n]) ensures k in Keys(st) {
      var i :| 0 <= i < n && st[..n][i].name == k;
      assert st[i] == st[..n][i];
    }
  }

  /** A store with one more entry in front has unique names exactly when the
      rest does and the new name is not among them. */
  lemma UniqueNamesCons(x: Snapshot, st: Store)
    ensures UniqueNames([x] + st) <==> x.name !in Keys(st) && UniqueNames(st)
  {
    var xs := [x] + st;
    assert xs[0] == x;
    if UniqueNames(xs) {
      forall i, j | 0 <= i < j < |st| ensures st[i].name != st[j].name {
        assert xs[i + 1] == st[i] && xs[j + 1] == st[j];
      }
      forall i | 0 <= i < |st| ensures st[i].name != x.name {
        assert xs[i + 1] == st[i];
      }
    }
    if x.name !in Keys(st) && UniqueNames(st) {
      forall i, j | 0 <= i < j < |xs| ensures xs[i].name != xs[j].name {
        assert xs[j] == st[j - 1] && st[j - 1].name in Keys(st);
        if i > 0 { assert xs[i] == st[i - 1]; }
      }
      assert UniqueNames(xs);
    }
  }

  /** The entry stored under `name`, if any (`Map.get`). */
  function Find(st: Store, name: string): (r: Option<Snapshot>)
    ensures r.Some? <==> name in Keys(st)
    ensures r.Some? ==> r.value.name == name && r.value in st
  {
    if |st| == 0 then None
    else if st[0].name == name then Some(st[0])
    else
      var rest := Find(st[1..], name);
      KeysCons(st[0], st[1..]);
      assert st == [st[0]] + st[1..];
      rest
  }

  /** The name refusal of a save: `name.trim() === ''`. */
  predicate BlankName(name: string) {
    Text.Trim(name) == []
  }

  /** Saving the live grid under `name`, checking in the program's order:
      the store is full, then the name is blank, then the name is taken.
      On success the new entry goes last and is keyed by the name exactly
      as typed, untrimmed. */
  function AddToSaved(st: Store, name: string, g: Grid, width: nat, dimension: nat): (r: Result<Store, SaveError>)
    ensures r == Err(CapacityExceeded) <==> |st| >= MaxSavedGrids
    ensures r == Err(EmptyName) <==> |st| < MaxSavedGrids && Text.IsBlank(name)
    ensures r == Err(DuplicateName) <==> |st| < MaxSavedGrids && !Text.IsBlank(name) && name in Keys(st)
    ensures r.Ok? ==> |r.value| == |st| + 1 <= MaxSavedGrids
    ensures r.Ok? ==> r.value[..|st|] == st && r.value[|st|] == Snapshot(name, g, width, dimension)
    ensures r.Ok? && UniqueNames(st) ==> UniqueNames(r.value)
  {
    Text.TrimEmptyIffBlank(name);
    if |st| >= MaxSavedGrids then Err(CapacityExceeded)
    else if BlankName(name) then Err(EmptyName)
    else if name in Keys(st) then Err(DuplicateName)
    else Ok(st + [Snapshot(name, g, width, dimension)])
  }

  /** Removing the entry under `name` (`Map.delete`); a missing name leaves
      the store as it is. */
  function Delete(st: Store, name: string): (r: Store)
    ensures Keys(r) == Keys(st) - {name}
    ensures |r| <= |st|
    ensures forall other :: other != name ==> Find(r, other) == Find(st, other)
    ensures UniqueNames(st) ==> UniqueNames(r)
    ensures UniqueNames(st) && name in Keys(st) ==> |r| == |st| - 1
    ensures name !in Keys(st) ==> r == st
    ensures forall x :: x in r ==> x in st
    ensures UniqueNames(st) && name in Keys(st) ==> r == st[..IndexOf(st, name)] + st[IndexOf(st, name) + 1..]
  {
    if |st| == 0 then []
    else
      var rest := Delete(st[1..], name);
      var r := if st[0].name == name then rest else [st[0]] + rest;
      DeleteStepShape(st, name, rest, r);
      DeleteStepOrder(st, name, rest, r);
      DeleteStepKeepsFinds(st, name, rest);
      r
  }

  /** The position of the first entry named `name`. */
  function IndexOf(st: Store, name: string): (i: nat)
    requires name in Keys(st)
    ensures i < |st| && st[i].name == name
    ensures forall j :: 0 <= j < i ==> st[j].name != name
  {
    assert st == [st[0]] + st[1..];
    KeysCons(st[0], st[1..]);
    if st[0].name == name then 0 else 1 + IndexOf(st[1..], name)
  }

  /** One step of `Delete`, for the keys, sizes and entries of the result. */
  lemma DeleteStepShape(st: Store, name: string, rest: Store, r: Store)
    requires |st| > 0
    requires r == if st[0].name == name then rest else [st[0]] + rest
    requires Keys(rest) == Keys(st[1..]) - {name}
    requires |rest| <= |st[1..]|
    requires name !in Keys(st[1..]) ==> rest == st[1..]
    requires forall x :: x in rest ==> x in st[1..]
    ensures Keys(r) == Keys(st) - {name}
    ensures |r| <= |st|
    ensures name !in Keys(st) ==> r == st
    ensures forall x :: x in r ==> x in st
  {
    assert st == [st[0]] + st[1..];
    KeysCons(st[0], st[1..]);
    KeysCons(st[0], rest);
  }

  /** One step of `Delete`, for uniqueness, the count and the order of what
      remains. */
  lemma DeleteStepOrder(st: Store, name: string, rest: Store, r: Store)
    requires |st| > 0
    requires r == if st[0].name == name then rest else [st[0]] + rest
    requires Keys(rest) == Keys(st[1..]) - {name}
    requires name !in Keys(st[1..]) ==> rest == st[1..]
    requires UniqueNames(st[1..]) ==> UniqueNames(rest)
    requires UniqueNames(st[1..]) && name in Keys(st[1..]) ==> |rest| == |st[1..]| - 1
    requires UniqueNames(st[1..]) && name in Keys(st[1..]) ==>
      rest == st[1..][..IndexOf(st[1..], name)] + st[1..][IndexOf(st[1..], name) + 1..]
    ensures UniqueNames(st) ==> UniqueNames(r)
    ensures UniqueNames(st) && name in Keys(st) ==> |r| == |st| - 1
    ensures UniqueNames(st) && name in Keys(st) ==> r == st[..IndexOf(st, name)] + st[IndexOf(st, name) + 1..]
  {
    assert st == [st[0]] + st[1..];
    KeysCons(st[0], st[1..]);
    UniqueNamesCons(st[0], st[1..]);
    if UniqueNames(st) {
      if st[0].name == name {
        assert IndexOf(st, name) == 0;
      } else {
        KeysCons(st[0], rest);
        UniqueNamesCons(st[0], rest);
        if name in Keys(st) {
          DeleteKeepsOrderCons(st, name, rest);
        }
      }
    }
  }

  /** One step of `Delete` keeps every lookup of another name. */
  lemma DeleteStepKeepsFinds(st: Store, name: string, rest: Store)
    requires |st| > 0
    requires forall other :: other != name ==> Find(rest, other) == Find(st[1..], other)
    ensures forall other :: other != name ==>
      Find(if st[0].name == name then rest else [st[0]] + rest, other) == Find(st, other)
  {
    forall other | other != name
      ensures Find(if st[0].name == name then rest else [st[0]] + rest, other) == Find(st, other)
    {
      if st[0].name != name {
        assert ([st[0]] + rest)[1..] == rest;
      }
    }
  }

  /** One step of `Delete` past an entry with another name keeps the
      order of what remains. */
  lemma DeleteKeepsOrderCons(st: Store, name: string, rest: Store)
    requires |st| > 0 && st[0].name != name && name in Keys(st[1..])
    requires rest == st[1..][..IndexOf(st[1..], name)] + st[1..][IndexOf(st[1..], name) + 1..]
    ensures name in Keys(st)
    ensures [st[0]] + rest == st[..IndexOf(st, name)] + st[IndexOf(st, name) + 1..]
  {
    assert st == [st[0]] + st[1..];
    KeysCons(st[0], st[1..]);
    var k := IndexOf(st[1..], name);
    assert IndexOf(st, name) == k + 1;
    assert st[..k + 1] == [st[0]] + st[1..][..k];
    assert st[k + 2..] == st[1..][k + 1..];
  }

  /** `Map.set`: overwrite the value of an existing key in place, or append a
      new entry. */
  function Put(st: Store, s: Snapshot): (r: Store)
    ensures Keys(r) == Keys(st) + {s.name}
    ensures s.name !in Keys(st) ==> r == st + [s]
    ensures forall x :: x in r ==> x in st || x == s
    ensures UniqueNames(st) && s.name in Keys(st) ==> r == st[IndexOf(st, s.name) := s]
  {
    if |st| == 0 then
      KeysCons(s, []);
      assert [s] == [s] + [];
      [s]
    else
      assert st == [st[0]] + st[1..];
      KeysCons(st[0], st[1..]);
      if st[0].name == s.name then
        KeysCons(s, st[1..]);
        [s] + st[1..]
      else
        var rest := Put(st[1..], s);
        KeysCons(st[0], rest);
        [st[0]] + rest
  }

  /** After `Put` the key holds the new entry, and keys stay unique. */
  lemma {:induction false} PutStores(st: Store, s: Snapshot)
    ensures Find(Put(st, s), s.name) == Some(s)
    ensures UniqueNames(st) ==> UniqueNames(Put(st, s))
  {
    if |st| > 0 {
      assert st == [st[0]] + st[1..];
      UniqueNamesCons(st[0], st[1..]);
      if st[0].name == s.name {
        UniqueNamesCons(s, st[1..]);
      } else {
        var rest := Put(st[1..], s);
        PutStores(st[1..], s);
        assert Put(st, s) == [st[0]] + rest;
        UniqueNamesCons(st[0], rest);
        assert Put(st, s)[1..] == rest;
      }
    }
  }

  /** Rebuilding the map at start-up from the stored array of entries, one
      `Map.set` per entry in array order. */
  function Restore(records: seq<Snapshot>): (st: Store)
    ensures UniqueNames(st)
    ensures Keys(st) == Keys(records)
    ensures forall x :: x in st ==> x in records
  {
    if |records| == 0 then []
    else
      KeysSnoc(records);
      var prefix := Restore(records[..|records| - 1]);
      PutStores(prefix, records[|records| - 1]);
      Put(prefix, records[|records| - 1])
  }

  // ---------------------------------------------------------------------
  // Round trips

  /** Looking up the key of an entry appended after a store that lacks it
      finds that entry. */
  lemma {:induction false} FindAppended(st: Store, x: Snapshot)
    requires x.name !in Keys(st)
    ensures Find(st + [x], x.name) == Some(x)
  {
    if |st| > 0 {
      assert st[0].name in Keys(st);
      assert (st + [x])[1..] == st[1..] + [x];
      KeysCons(st[0], st[1..]);
      assert st == [st[0]] + st[1..];
      FindAppended(st[1..], x);
    }
  }

  /** A successful save can be loaded back under its name, carrying the grid,
      width and dimension given at save time. */
  lemma SaveThenFind(st: Store, name: string, g: Grid, width: nat, dimension: nat)
    requires AddToSaved(st, name, g, width, dimension).Ok?
    ensures Find(AddToSaved(st, name, g, width, dimension).value, name) == Some(Snapshot(name, g, width, dimension))
  {
    FindAppended(st, Snapshot(name, g, width, dimension));
  }

  /** Deleting the key of an entry appended after a store that lacks it gives
      back that store. */
  lemma {:induction false} DeleteAppended(st: Store, x: Snapshot)
    requires x.name !in Keys(st)
    ensures Delete(st + [x], x.name) == st
  {
    if |st| == 0 {
      assert [x][1..] == [];
    } else {
      assert st[0].name in Keys(st);
      assert (st + [x])[1..] == st[1..] + [x];
      KeysCons(st[0], st[1..]);
      assert st == [st[0]] + st[1..];
      DeleteAppended(st[1..], x);
    }
  }

  /** Deleting what was just saved restores the store exactly. */
  lemma SaveThenDelete(st: Store, name: string, g: Grid, width: nat, dimension: nat)
    requires AddToSaved(st, name, g, width, dimension).Ok?
    ensures Delete(AddToSaved(st, name, g, width, dimension).value, name) == st
  {
    DeleteAppended(st, Snapshot(name, g, width, dimension));
  }

  /** Dropping the last entry of a store with unique names leaves a store
      with unique names that lacks the last key. */
  lemma UniqueNamesSnoc(st: Store)
    requires |st| > 0 && UniqueNames(st)
    ensures UniqueNames(st[..|st| - 1])
    ensures st[|st| - 1].name !in Keys(st[..|st| - 1])
  {
  }

  /** Writing the store's entries to durable storage in insertion order and
      rebuilding the map from them at start-up gives back the same entries,
      with all four fields and the same order. */
  lemma {:induction false} RestorePersisted(st: Store)
    requires UniqueNames(st)
    ensures Restore(st) == st
  {
    if |st| > 0 {
      var n := |st| - 1;
      var prefix := st[..n];
      UniqueNamesSnoc(st);
      RestorePersisted(prefix);
      calc {
        Restore(st);
        Put(Restore(prefix), st[n]);
        Put(prefix, st[n]);
        prefix + [st[n]];
        st;
      }
    }
  }
}
