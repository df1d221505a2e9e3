/** The bounded cache of Git blobs (scripts/course_github_markdown.py), least recently used first. */
module BlobCache {

  import opened Options

  type Id(==, !new)
  type Byte = bv8

  datatype Blob = Blob(id: Id, content: seq<Byte>)

  const MAX_BYTES: nat := 512 * 1024 * 1024

  function Size(items: seq<Blob>): nat {
    if items == [] then 0 else |items[0].content| + Size(items[1..])
  }

  lemma {:induction false} SizeAppend(items: seq<Blob>, blob: Blob)
    ensures Size(items + [blob]) == Size(items) + |blob.content|
  {
    if items != [] {
      assert (items + [blob])[1..] == items[1..] + [blob];
      SizeAppend(items[1..], blob);
    }
  }

  predicate DistinctIds(items: seq<Blob>) {
    forall i, j :: 0 <= i < j < |items| ==> items[i].id != items[j].id
  }

  /** The position of the blob with this id. */
  function Find(items: seq<Blob>, id: Id): (at: Option<nat>)
    ensures at.Some? ==> at.value < |items| && items[at.value].id == id
    ensures at.None? ==> forall i :: 0 <= i < |items| ==> items[i].id != id
  {
    if items == [] then None
    else if items[0].id == id then Some(0)
    else match Find(items[1..], id)
      case None => None
      case Some(i) => assert items[1..][i] == items[i + 1]; Some(i + 1)
  }

  function Without(items: seq<Blob>, id: Id): seq<Blob> {
    match Find(items, id)
    case None => items
    case Some(i) => items[..i] + items[i + 1..]
  }

  /** Removing the one blob with this id keeps the others. */
  lemma WithoutKeeps(items: seq<Blob>, id: Id)
    requires DistinctIds(items)
    ensures DistinctIds(Without(items, id)) && forall blob :: blob in Without(items, id) <==>
      blob in items && blob.id != id
  {
  }

  /** ... in their order: what was before the blob and what was behind it come together. */
  lemma WithoutJoins(before: seq<Blob>, blob: Blob, behind: seq<Blob>)
    requires DistinctIds(before + [blob] + behind)
    ensures Without(before + [blob] + behind, blob.id) == before + behind
  {
    var items := before + [blob] + behind;
    assert items[|before|] == blob;
    assert Find(items, blob.id) == Some(|before|);
  }

  /** Blob `x` was used before blob `y`. */
  ghost predicate Earlier(items: seq<Blob>, x: Blob, y: Blob) {
    exists i, j :: 0 <= i < j < |items| && items[i] == x && items[j] == y
  }

  /** Making one blob the most recent keeps the order of any two others. */
  lemma OthersKeepOrder(items: seq<Blob>, blob: Blob, x: Blob, y: Blob)
    requires x.id != blob.id && y.id != blob.id
    ensures Earlier(Without(items, blob.id) + [blob], x, y) <==> Earlier(items, x, y)
  {
    var used := Without(items, blob.id) + [blob];
    var at := Find(items, blob.id);
    var gap := if at.Some? then at.value else |items|;
    if i, j :| 0 <= i < j < |items| && items[i] == x && items[j] == y {
      assert used[if i < gap then i else i - 1] == x && used[if j < gap then j else j - 1] == y;
    }
    if i, j :| 0 <= i < j < |used| && used[i] == x && used[j] == y {
      assert items[if i < gap then i else i + 1] == x && items[if j < gap then j else j + 1] == y;
    }
  }

  /** So does evicting from the front. */
  lemma SurvivorsKeepOrder(items: seq<Blob>, first: nat, x: Blob, y: Blob)
    requires DistinctIds(items) && first <= |items| && x in items[first..]
    ensures Earlier(items[first..], x, y) <==> Earlier(items, x, y)
  {
    var kept := items[first..];
    assert forall k :: 0 <= k < |kept| ==> kept[k] == items[first + k];
    if i, j :| 0 <= i < j < |kept| && kept[i] == x && kept[j] == y {
      assert items[first + i] == x && items[first + j] == y;
    }
    if i, j :| 0 <= i < j < |items| && items[i] == x && items[j] == y {
      var k :| 0 <= k < |kept| && kept[k] == x;
      assert i == first + k && kept[j - first] == y;
    }
  }

  /** What is left of `before`, apart from the blob with this id, is in the same order. */
  ghost predicate SameOrder(before: seq<Blob>, after: seq<Blob>, id: Id) {
    forall x: Blob, y: Blob :: x.id != id && y.id != id && x in after ==>
      (Earlier(after, x, y) <==> Earlier(before, x, y))
  }

  /** Both together: the order of any two blobs with other ids, of which the first one survives. */
  lemma PuttingKeepsOrder(items: seq<Blob>, blob: Blob, limit: nat, kept: seq<Blob>)
    requires DistinctIds(items) && Evicted(Without(items, blob.id) + [blob], limit, kept)
    ensures SameOrder(items, kept, blob.id)
  {
    var used := Without(items, blob.id) + [blob];
    WithoutKeeps(items, blob.id);
    forall x: Blob, y: Blob | x.id != blob.id && y.id != blob.id && x in kept
      ensures Earlier(kept, x, y) <==> Earlier(items, x, y)
    {
      OthersKeepOrder(items, blob, x, y);
      SurvivorsKeepOrder(used, |used| - |kept|, x, y);
    }
  }

  lemma {:induction false} SizeDrops(items: seq<Blob>, i: nat)
    requires i < |items|
    ensures Size(items) == Size(items[..i] + items[i + 1..]) + |items[i].content|
  {
    if i == 0 {
      assert items[..0] + items[1..] == items[1..];
    } else {
      SizeDrops(items[1..], i - 1);
      var rest := items[1..];
      assert (items[..i] + items[i + 1..])[1..] == rest[..i - 1] + rest[i..];
      assert (items[..i] + items[i + 1..])[0] == items[0];
    }
  }

  /** `kept` is what is left of `items` after evicting no more than needed from the front. */
  predicate Evicted(items: seq<Blob>, limit: nat, kept: seq<Blob>) {
    && |kept| <= |items| && kept == items[|items| - |kept|..] && Size(kept) <= limit
    && (|kept| < |items| ==> Size(items[|items| - |kept| - 1..]) > limit)
  }

  lemma {:induction false} SuffixSize(items: seq<Blob>, i: nat, j: nat)
    requires i <= j <= |items|
    ensures Size(items[j..]) <= Size(items[i..])
    decreases j - i
  {
    if i < j {
      SuffixSize(items, i + 1, j);
      assert items[i..][1..] == items[i + 1..];
    }
  }

  /** A blob survives exactly when everything used since then still fits together with it. */
  lemma SurvivesExactly(items: seq<Blob>, limit: nat, kept: seq<Blob>, i: nat)
    requires Evicted(items, limit, kept) && DistinctIds(items) && i < |items|
    ensures items[i] in kept <==> Size(items[i..]) <= limit
  {
    var first := |items| - |kept|;
    if i >= first {
      SuffixSize(items, first, i);
      assert kept[i - first] == items[i];
    } else {
      SuffixSize(items, i, first - 1);
      assert forall k :: 0 <= k < |kept| ==> kept[k].id != items[i].id;
    }
  }

  /** So the blob that was put is always there afterwards, as the most recent one. */
  lemma NewestSurvives(items: seq<Blob>, blob: Blob, limit: nat)
    requires |blob.content| <= limit
    ensures forall kept :: Evicted(items + [blob], limit, kept) ==> kept != [] && kept[|kept| - 1] == blob
  {
  }

  /** Whatever is evicted, the ids stay distinct and nothing but the blob is new. */
  lemma StoredIsFit(items: seq<Blob>, blob: Blob)
    requires DistinctIds(items)
    ensures forall limit, kept ::
      Evicted(Without(items, blob.id) + [blob], limit, kept) ==>
        DistinctIds(kept) && forall b :: b in kept ==> b == blob || b in items
  {
    WithoutKeeps(items, blob.id);
  }

  class Cache {
    const maxBytes: nat
    /** `_verify_git_object`: the object id of a content. */
    const digest: seq<Byte> -> Id
    /** `GIT_OBJECT_ID_RE` */
    const wellFormed: Id -> bool
    var size: int
    var items: seq<Blob>

    ghost predicate Valid()
      reads this
    {
      && 0 < maxBytes <= MAX_BYTES && DistinctIds(items) && size == Size(items) <= maxBytes
      && forall blob :: blob in items ==> digest(blob.content) == blob.id && wellFormed(blob.id)
    }

    constructor (maxBytes: nat, digest: seq<Byte> -> Id, wellFormed: Id -> bool)
      requires 0 < maxBytes <= MAX_BYTES
      ensures Valid() && items == [] && this.maxBytes == maxBytes && this.digest == digest &&
        this.wellFormed == wellFormed
    {
      this.maxBytes, this.digest, this.wellFormed := maxBytes, digest, wellFormed;
      size, items := 0, [];
    }

    /** `get`: a hit becomes the most recent blob, and its verification never fails. */
    method Get(id: Id) returns (content: Option<seq<Byte>>, failed: bool)
      requires Valid()
      modifies this
      ensures Valid() && (failed <==> !wellFormed(id))
      ensures content.Some? <==> exists blob :: blob in old(items) && blob.id == id
      ensures content.Some? ==> Blob(id, content.value) in old(items)
      ensures content.Some? ==> items == Without(old(items), id) + [Blob(id, content.value)]
      ensures content.Some? ==> SameOrder(old(items), items, id) && |items| == |old(items)|
      ensures content.None? ==> items == old(items)
    {
      if !wellFormed(id) {
        return None, true;
      }
      match Find(items, id) {
        case None => return None, false;
        case Some(i) =>
          var blob := items[i];
          if digest(blob.content) != id {
            assert false;
          }
          WithoutKeeps(items, id);
          SizeDrops(items, i);
          SizeAppend(Without(items, id), blob);
          forall x: Blob, y: Blob | x.id != id && y.id != id
            ensures Earlier(Without(items, id) + [blob], x, y) <==> Earlier(items, x, y)
          {
            OthersKeepOrder(items, blob, x, y);
          }
          items := items[..i] + items[i + 1..] + [blob];
          return Some(blob.content), false;
      }
    }

    /** `put` */
    method Put(id: Id, content: seq<Byte>) returns (failed: bool)
      requires Valid()
      modifies this
      ensures Valid() && (failed <==> !wellFormed(id) || digest(content) != id)
      ensures failed || |content| > maxBytes ==> items == old(items)
      ensures !failed && |content| <= maxBytes ==>
        && Evicted(Without(old(items), id) + [Blob(id, content)], maxBytes, items)
        && items != [] && items[|items| - 1] == Blob(id, content)
      ensures !failed && |content| <= maxBytes ==> SameOrder(old(items), items, id)
    {
      if !wellFormed(id) || digest(content) != id {
        return true;
      }
      failed := false;
      if |content| > maxBytes {
        return;
      }
      StoredIsFit(items, Blob(id, content));
      NewestSurvives(Without(items, id), Blob(id, content), maxBytes);
      Store(id, content);
      PuttingKeepsOrder(old(items), Blob(id, content), maxBytes, items);
    }

    /** The part of `put` under the lock. */
    method Store(id: Id, content: seq<Byte>)
      requires size == Size(items)
      modifies this
      ensures size == Size(items) && Evicted(Without(old(items), id) + [Blob(id, content)], maxBytes, items)
    {
      Pop(id);
      SizeAppend(items, Blob(id, content));
      items, size := items + [Blob(id, content)], size + |content|;
      Evict();
    }

    /** Take out the blob with this id, if there is one, and its size. */
    method Pop(id: Id)
      requires size == Size(items)
      modifies this
      ensures items == Without(old(items), id) && size == Size(items)
    {
      match Find(items, id) {
        case None =>
        case Some(i) =>
          SizeDrops(items, i);
          size := size - |items[i].content|;
          items := items[..i] + items[i + 1..];
      }
    }

    /** The eviction loop of `put`. */
    method Evict()
      requires size == Size(items)
      modifies this
      ensures size == Size(items) && Evicted(old(items), maxBytes, items)
    {
      ghost var first := 0;
      while size > maxBytes
        invariant first <= |old(items)| && items == old(items)[first..] && size == Size(items)
        invariant first > 0 ==> Size(old(items)[first - 1..]) > maxBytes
        decreases |items|
      {
        first := first + 1;
        size, items := size - |items[0].content|, items[1..];
      }
    }
  }

  /** `__init__`; null stands for its ValueError. */
  method OpenCache(maxBytes: int, digest: seq<Byte> -> Id, wellFormed: Id -> bool) returns (cache: Cache?)
    ensures cache != null <==> 0 < maxBytes <= MAX_BYTES
    ensures cache != null ==> fresh(cache) && cache.Valid() && cache.items == [] && cache.maxBytes == maxBytes
  {
    if maxBytes <= 0 || maxBytes > MAX_BYTES {
      return null;
    }
    cache := new Cache(maxBytes, digest, wellFormed);
  }
}
