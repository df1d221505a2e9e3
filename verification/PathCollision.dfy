/** The one-pass check for colliding destination paths (scripts/course_bundle_validation.py). */
module PathCollision {

  import opened Options

  /** A path split at its slashes; there is always at least one component. */
  type Path = p: seq<string> | p != [] witness [""]

  datatype Entry = Entry(kind: string, path: Path)

  datatype Collision = Collision(previous: Entry, current: Entry)

  /** `portable_path_key` folds a path component by component; `fold` stands for the folding. */
  function Key(path: seq<string>, fold: string -> string): (key: seq<string>)
    ensures |key| == |path|
    ensures forall i :: 0 <= i < |path| ==> key[i] == fold(path[i])
  {
    seq(|path|, i requires 0 <= i < |path| => fold(path[i]))
  }

  /** One of the two keys is the other one or a prefix of it. */
  predicate Clash(a: seq<string>, b: seq<string>) {
    a <= b || b <= a
  }

  function KeyAt(entries: seq<Entry>, fold: string -> string, i: nat): (key: seq<string>)
    requires i < |entries|
    ensures key != []
  {
    Key(entries[i].path, fold)
  }

  predicate EntriesClash(entries: seq<Entry>, fold: string -> string, j: nat, i: nat)
    requires j < |entries| && i < |entries|
  {
    Clash(KeyAt(entries, fold, j), KeyAt(entries, fold, i))
  }

  /** The quadratic check that the tables stand in for. */
  predicate Clashes(entries: seq<Entry>, fold: string -> string, i: nat)
    requires i < |entries|
  {
    exists j :: 0 <= j < i && EntriesClash(entries, fold, j, i)
  }

  // --------------------------------------------------------------------------------- the tables

  /** `seen` holds one of the first `n` entries for each of their keys. */
  ghost predicate SeenTable(entries: seq<Entry>, fold: string -> string, n: nat, seen: map<seq<string>, nat>) {
    && n <= |entries|
    && (forall k :: k in seen ==> seen[k] < n && KeyAt(entries, fold, seen[k]) == k)
    && forall j :: 0 <= j < n ==> KeyAt(entries, fold, j) in seen
  }

  /** `below` holds, for each proper prefix of a key of the first `n` entries, one entry under it. */
  ghost predicate BelowTable(entries: seq<Entry>, fold: string -> string, n: nat, below: map<seq<string>, nat>) {
    && n <= |entries|
    && (forall p :: p in below ==> below[p] < n && p < KeyAt(entries, fold, below[p]))
    && forall j :: 0 <= j < n ==> PrefixesIn(KeyAt(entries, fold, j), below)
  }

  ghost predicate PrefixesIn(key: seq<string>, below: map<seq<string>, nat>) {
    forall l :: 1 <= l < |key| ==> key[..l] in below
  }

  /** What an exhausted search of the tables says about one entry. */
  lemma NotInTables(entries: seq<Entry>, fold: string -> string, n: nat, key: seq<string>,
                    seen: map<seq<string>, nat>, below: map<seq<string>, nat>, j: nat)
    requires key != [] && SeenTable(entries, fold, n, seen) && BelowTable(entries, fold, n, below) && j < n
    requires key !in seen && key !in below && forall l :: 1 <= l < |key| ==> key[..l] !in seen
    ensures !Clash(KeyAt(entries, fold, j), key)
  {
    var other := KeyAt(entries, fold, j);
    assert key[..|key|] == key && PrefixesIn(other, below);
    assert |other| <= |key| ==> (other <= key <==> key[..|other|] == other);
    assert |key| <= |other| ==> (key <= other <==> other[..|key|] == key);
  }

  /** The earlier entry that the tables name for a key, if any. */
  method Lookup(entries: seq<Entry>, fold: string -> string, ghost n: nat, key: seq<string>,
                seen: map<seq<string>, nat>, below: map<seq<string>, nat>) returns (previous: Option<nat>)
    requires key != [] && SeenTable(entries, fold, n, seen) && BelowTable(entries, fold, n, below)
    ensures previous.Some? ==> previous.value < n && Clash(KeyAt(entries, fold, previous.value), key)
    ensures previous.None? ==> forall j :: 0 <= j < n ==> !Clash(KeyAt(entries, fold, j), key)
  {
    if key in seen {
      return Some(seen[key]);
    }
    for length := 1 to |key|
      invariant forall l :: 1 <= l < length ==> key[..l] !in seen
    {
      if key[..length] in seen {
        return Some(seen[key[..length]]);
      }
    }
    if key in below {
      return Some(below[key]);
    }
    forall j | 0 <= j < n
      ensures !Clash(KeyAt(entries, fold, j), key)
    {
      NotInTables(entries, fold, n, key, seen, below, j);
    }
    return None;
  }

  /** Enter the proper prefixes of entry `i`, keeping what is already there. */
  method AddPrefixes(entries: seq<Entry>, fold: string -> string, i: nat, below0: map<seq<string>, nat>)
    returns (below: map<seq<string>, nat>)
    requires i < |entries| && BelowTable(entries, fold, i, below0)
    ensures BelowTable(entries, fold, i + 1, below)
  {
    var key := KeyAt(entries, fold, i);
    below := below0;
    for length := 1 to |key|
      invariant below0.Keys <= below.Keys
      invariant forall p :: p in below ==> below[p] <= i && p < KeyAt(entries, fold, below[p])
      invariant forall l :: 1 <= l < length ==> key[..l] in below
    {
      if key[..length] !in below {
        below := below[key[..length] := i];
      }
    }
    forall j | 0 <= j <= i
      ensures PrefixesIn(KeyAt(entries, fold, j), below)
    {
      assert j < i ==> PrefixesIn(KeyAt(entries, fold, j), below0);
    }
  }

  /** Error `e` is about entry `at[e]` and names an earlier entry that clashes with it. */
  ghost predicate Names(entries: seq<Entry>, fold: string -> string, error: Collision, i: nat) {
    && i < |entries| && error.current == entries[i]
    && exists j :: 0 <= j < i && error.previous == entries[j] && EntriesClash(entries, fold, j, i)
  }

  /** The entries, in order, that the quadratic check complains about. */
  function Clashing(entries: seq<Entry>, fold: string -> string, n: nat): (at: seq<nat>)
    requires n <= |entries|
  {
    if n == 0 then []
    else Clashing(entries, fold, n - 1) + if Clashes(entries, fold, n - 1) then [n - 1] else []
  }

  lemma {:induction false} ClashingExactly(entries: seq<Entry>, fold: string -> string, n: nat)
    requires n <= |entries|
    ensures forall i :: i in Clashing(entries, fold, n) <==> 0 <= i < n && Clashes(entries, fold, i)
    ensures forall e, f :: 0 <= e < f < |Clashing(entries, fold, n)| ==>
      Clashing(entries, fold, n)[e] < Clashing(entries, fold, n)[f]
  {
    if n > 0 {
      ClashingExactly(entries, fold, n - 1);
      var before := Clashing(entries, fold, n - 1);
      assert forall e :: 0 <= e < |before| ==> before[e] in before;
    }
  }

  /** No entry is reported exactly when no two entries clash. */
  lemma {:induction false} NoClashAtAll(entries: seq<Entry>, fold: string -> string)
    ensures Clashing(entries, fold, |entries|) == [] <==>
      forall j, i :: 0 <= j < i < |entries| ==> !EntriesClash(entries, fold, j, i)
  {
    ClashingExactly(entries, fold, |entries|);
    var at := Clashing(entries, fold, |entries|);
    if at != [] {
      assert at[0] in at;
    } else {
      forall j, i | 0 <= j < i < |entries|
        ensures !EntriesClash(entries, fold, j, i)
      {
        assert i !in at;
      }
    }
  }

  /** The two of them in any order. */
  lemma EntriesApart(entries: seq<Entry>, fold: string -> string, j: nat, k: nat)
    requires Clashing(entries, fold, |entries|) == [] && j < |entries| && k < |entries| && j != k
    ensures !Clash(KeyAt(entries, fold, j), KeyAt(entries, fold, k))
  {
    NoClashAtAll(entries, fold);
    assert j < k ==> !EntriesClash(entries, fold, j, k);
    assert k < j ==> !EntriesClash(entries, fold, k, j);
  }

  /** One error for each of the first `n` entries that clashes with an earlier one, naming such an
      earlier entry. */
  ghost predicate Reports(entries: seq<Entry>, fold: string -> string, n: nat, errors: seq<Collision>)
    requires n <= |entries|
  {
    && |errors| == |Clashing(entries, fold, n)|
    && forall e :: 0 <= e < |errors| ==> Names(entries, fold, errors[e], Clashing(entries, fold, n)[e])
  }

  lemma ReportsMore(entries: seq<Entry>, fold: string -> string, i: nat, errors: seq<Collision>, j: nat)
    requires i < |entries| && Reports(entries, fold, i, errors) && j < i && EntriesClash(entries, fold, j, i)
    ensures Reports(entries, fold, i + 1, errors + [Collision(entries[j], entries[i])])
  {
  }

  lemma ReportsNoMore(entries: seq<Entry>, fold: string -> string, i: nat, errors: seq<Collision>)
    requires i < |entries| && Reports(entries, fold, i, errors) && !Clashes(entries, fold, i)
    ensures Reports(entries, fold, i + 1, errors)
  {
  }

  lemma SeenMore(entries: seq<Entry>, fold: string -> string, i: nat, seen: map<seq<string>, nat>)
    requires i < |entries| && SeenTable(entries, fold, i, seen)
    ensures
      var key := KeyAt(entries, fold, i);
      SeenTable(entries, fold, i + 1, if key in seen then seen else seen[key := i])
  {
  }

  /** `_collision_errors`, its loop over the entries: one error for each entry that clashes with an
      earlier one, naming such an earlier entry. */
  method CollisionErrors(entries: seq<Entry>, fold: string -> string) returns (errors: seq<Collision>)
    ensures Reports(entries, fold, |entries|, errors)
  {
    errors := [];
    var seen: map<seq<string>, nat>, below: map<seq<string>, nat> := map[], map[];
    for i := 0 to |entries|
      invariant SeenTable(entries, fold, i, seen) && BelowTable(entries, fold, i, below)
      invariant Reports(entries, fold, i, errors)
    {
      var key := KeyAt(entries, fold, i);
      var previous := Lookup(entries, fold, i, key, seen, below);
      if previous.Some? {
        ReportsMore(entries, fold, i, errors, previous.value);
        errors := errors + [Collision(entries[previous.value], entries[i])];
      } else {
        ReportsNoMore(entries, fold, i, errors);
      }
      SeenMore(entries, fold, i, seen);
      seen := if key in seen then seen else seen[key := i];
      below := AddPrefixes(entries, fold, i, below);
    }
  }
}
