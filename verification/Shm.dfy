/** The System V shared-memory registry: segments by id and by key, and detaching in two separate steps. */
module Shm {
  import opened Flat

  const I32_MAX: int := 0x7FFF_FFFF
  const IPC_PRIVATE: int := 0

  datatype Error = EINVAL | EEXIST | ENOENT | ENOMEM | EACCES | EPERM

  datatype Result<+T> = Ok(value: T) | Err(error: Error)

  datatype Segment = Segment(id: int, key: int, size: nat, removed: bool, attached: nat)

  /** The flags of a request that matter here. */
  datatype Flags = Flags(hugetlb: bool, creat: bool, excl: bool)

  /**
   * The registry and every segment ever made: holders keep a segment after it left the registry. `byId` gives the
   * place of a segment, `pending` the places whose last detach is between its two steps.
   */
  datatype View =
    View(nextId: int, byId: map<int, nat>, byKey: map<int, int>, segments: seq<Segment>, pending: multiset<nat>)

  /** Places are real places. */
  predicate Sound(v: View) {
    && 1 <= v.nextId <= I32_MAX
    && (forall id | id in v.byId :: v.byId[id] < |v.segments|)
    && (forall h | h in v.pending :: h < |v.segments|)
  }

  /** The segment registered under an id. */
  function Seg(v: View, id: int): Segment
    requires Sound(v) && id in v.byId
  {
    v.segments[v.byId[id]]
  }

  /** No segment has an id that is still to come. */
  predicate Below(v: View) {
    forall h | 0 <= h < |v.segments| :: 1 <= v.segments[h].id < v.nextId
  }

  /** Ids are handed out once. */
  predicate IdsDistinct(v: View)
    requires Sound(v)
  {
    && (forall h, g | 0 <= h < g < |v.segments| :: v.segments[h].id != v.segments[g].id)
    && (forall id | id in v.byId :: Seg(v, id).id == id)
  }

  predicate KeyExact(v: View, k: int)
    requires Sound(v) && k in v.byKey
  {
    var id := v.byKey[k];
    k != IPC_PRIVATE && id in v.byId && Seg(v, id).key == k && !Seg(v, id).removed
  }

  /** A live segment is found by its id and, unless private, by its key. */
  predicate Registered(v: View, h: nat)
    requires Sound(v) && h < |v.segments|
  {
    var s := v.segments[h];
    && s.id in v.byId && v.byId[s.id] == h
    && (s.key != IPC_PRIVATE ==> s.key in v.byKey && v.byKey[s.key] == s.id)
  }

  /** A removed segment is still registered only while attached, or while its last detach is between its steps. */
  predicate Held(v: View, id: int)
    requires Sound(v) && id in v.byId
  {
    Seg(v, id).attached > 0 || v.byId[id] in v.pending
  }

  /** The key index is exactly the inverse of the live segments, and what is removed goes with its last detach. */
  predicate Exact(v: View) {
    && Sound(v) && IdsDistinct(v)
    && (forall k | k in v.byKey :: KeyExact(v, k))
    && (forall h | 0 <= h < |v.segments| && !v.segments[h].removed :: Registered(v, h))
    && (forall id | id in v.byId && Seg(v, id).removed :: Held(v, id))
  }

  // --- The changes ---

  function Added(v: View, key: int, size: nat): View {
    v.(nextId := Min(v.nextId + 1, I32_MAX),
       byId := v.byId[v.nextId := |v.segments|],
       byKey := if key == IPC_PRIVATE then v.byKey else v.byKey[key := v.nextId],
       segments := v.segments + [Segment(v.nextId, key, size, false, 0)])
  }

  lemma AddedIsExact(v: View, key: int, size: nat)
    requires Exact(v) && (key != IPC_PRIVATE ==> key !in v.byKey)
    requires forall h | 0 <= h < |v.segments| :: v.segments[h].id != v.nextId
    ensures Exact(Added(v, key, size))
  {
    var w := Added(v, key, size);
    assert v.nextId !in v.byId;
    forall h | 0 <= h < |w.segments| && !w.segments[h].removed
      ensures Registered(w, h)
    {
      assert h < |v.segments| ==> Registered(v, h);
    }
    forall k | k in w.byKey
      ensures KeyExact(w, k)
    {
      assert k in v.byKey ==> KeyExact(v, k);
    }
    forall id | id in w.byId && Seg(w, id).removed
      ensures Held(w, id)
    {
      assert Held(v, id);
    }
  }

  /** Skipping an id changes nothing else. */
  lemma UnusedId(v: View)
    requires Exact(v) && v.nextId < I32_MAX
    ensures Exact(v.(nextId := v.nextId + 1))
  {
    var w := v.(nextId := v.nextId + 1);
    assert forall k | k in v.byKey :: KeyExact(v, k) ==> KeyExact(w, k);
    assert forall h | 0 <= h < |v.segments| && !v.segments[h].removed :: Registered(v, h) ==> Registered(w, h);
    assert forall id | id in v.byId && Seg(v, id).removed :: Held(v, id) ==> Held(w, id);
  }

  /** A creation keeps the registry exact exactly when no segment has the next id yet. */
  lemma CreationExactly(v: View, key: int, size: nat)
    requires Exact(v) && (key != IPC_PRIVATE ==> key !in v.byKey)
    ensures Exact(Added(v, key, size)) <==> forall h | 0 <= h < |v.segments| :: v.segments[h].id != v.nextId
  {
    var w := Added(v, key, size);
    if forall h | 0 <= h < |v.segments| :: v.segments[h].id != v.nextId {
      AddedIsExact(v, key, size);
    } else {
      var h :| 0 <= h < |v.segments| && v.segments[h].id == v.nextId;
      assert w.segments[h].id == w.segments[|v.segments|].id;
    }
  }

  /** Sound, and exact as long as ids have not run out. */
  predicate Good(v: View) {
    Sound(v) && (v.nextId < I32_MAX ==> Exact(v) && Below(v))
  }

  lemma CreateKeepsValid(v: View, key: int, size: nat)
    requires Good(v) && (key != IPC_PRIVATE ==> key !in v.byKey)
    ensures Good(Added(v, key, size)) && Good(v.(nextId := Min(v.nextId + 1, I32_MAX)))
  {
    if v.nextId < I32_MAX {
      AddedIsExact(v, key, size);
      UnusedId(v);
    }
  }

  /** The number of attachments of one segment changes; a removed one must stay held. */
  lemma AttachedIsExact(v: View, h: nat, n: nat, pending: multiset<nat>)
    requires Exact(v) && h < |v.segments|
    requires v.segments[h].removed && n == 0 ==> h in pending
    requires pending == v.pending || pending == v.pending + multiset{h}
    ensures Exact(v.(segments := v.segments[h := v.segments[h].(attached := n)], pending := pending))
  {
    var w := v.(segments := v.segments[h := v.segments[h].(attached := n)], pending := pending);
    forall g | 0 <= g < |w.segments| && !w.segments[g].removed
      ensures Registered(w, g)
    {
      assert Registered(v, g);
    }
    forall k | k in w.byKey
      ensures KeyExact(w, k)
    {
      assert KeyExact(v, k);
    }
    forall id | id in w.byId && Seg(w, id).removed
      ensures Held(w, id)
    {
      assert Held(v, id);
    }
  }

  /** Marks a segment removed and unbinds its key if the key is still its own. */
  function Marked(v: View, id: int): View
    requires Sound(v) && id in v.byId
  {
    var h := v.byId[id];
    var key := v.segments[h].key;
    v.(segments := v.segments[h := v.segments[h].(removed := true)],
       byKey := if key != IPC_PRIVATE && key in v.byKey && v.byKey[key] == id then v.byKey - {key} else v.byKey)
  }

  /** Forgets a segment, and its key if the key is still its own. */
  function Forgotten(v: View, id: int): View
    requires Sound(v)
  {
    if id !in v.byId then v
    else
      var key := Seg(v, id).key;
      v.(byId := v.byId - {id},
         byKey := if key != IPC_PRIVATE && key in v.byKey && v.byKey[key] == id then v.byKey - {key} else v.byKey)
  }

  lemma MarkedIsExact(v: View, id: int)
    requires Exact(v) && id in v.byId && Seg(v, id).attached > 0
    ensures Exact(Marked(v, id))
  {
    var w := Marked(v, id);
    forall g | 0 <= g < |w.segments| && !w.segments[g].removed
      ensures Registered(w, g)
    {
      assert Registered(v, g);
    }
    forall k | k in w.byKey
      ensures KeyExact(w, k)
    {
      assert KeyExact(v, k);
    }
    forall i | i in w.byId && Seg(w, i).removed
      ensures Held(w, i)
    {
      assert Seg(v, i).removed ==> Held(v, i);
    }
  }

  lemma MarkedAndForgottenIsExact(v: View, id: int)
    requires Exact(v) && id in v.byId
    ensures Exact(Forgotten(Marked(v, id), id))
  {
    var w := Forgotten(Marked(v, id), id);
    forall g | 0 <= g < |w.segments| && !w.segments[g].removed
      ensures Registered(w, g)
    {
      assert Registered(v, g);
    }
    forall k | k in w.byKey
      ensures KeyExact(w, k)
    {
      assert KeyExact(v, k);
    }
    forall i | i in w.byId && Seg(w, i).removed
      ensures Held(w, i)
    {
      assert Seg(v, i).removed ==> Held(v, i);
    }
  }

  /** The state after marking for removal: forgotten at once when nothing is attached. */
  function MarkStep(v: View, id: int): (w: View)
    requires Sound(v) && id in v.byId
    ensures Sound(w)
  {
    if Seg(v, id).attached == 0 then Forgotten(Marked(v, id), id) else Marked(v, id)
  }

  lemma MarkKeepsGood(v: View, id: int)
    requires Good(v) && id in v.byId
    ensures Good(MarkStep(v, id))
  {
    if v.nextId < I32_MAX {
      if Seg(v, id).attached == 0 {
        MarkedAndForgottenIsExact(v, id);
      } else {
        MarkedIsExact(v, id);
      }
    }
  }

  /** One more attachment. */
  function Attached(v: View, h: nat): (w: View)
    requires Sound(v) && h < |v.segments|
    ensures Sound(w)
  {
    v.(segments := v.segments[h := v.segments[h].(attached := v.segments[h].attached + 1)])
  }

  /** The first step of a detach. */
  function Detached(v: View, h: nat): (w: View)
    requires Sound(v) && h < |v.segments|
    ensures Sound(w)
  {
    var s := v.segments[h].(attached := Max(v.segments[h].attached - 1, 0));
    v.(segments := v.segments[h := s],
       pending := if s.removed && s.attached == 0 then v.pending + multiset{h} else v.pending)
  }

  lemma AttachKeepsGood(v: View, h: nat)
    requires Good(v) && h < |v.segments|
    ensures Good(Attached(v, h))
  {
    if v.nextId < I32_MAX {
      AttachedIsExact(v, h, v.segments[h].attached + 1, v.pending);
    }
  }

  lemma DetachKeepsGood(v: View, h: nat)
    requires Good(v) && h < |v.segments|
    ensures Good(Detached(v, h))
  {
    if v.nextId < I32_MAX {
      AttachedIsExact(v, h, Detached(v, h).segments[h].attached, Detached(v, h).pending);
    }
  }

  /** The second step of a detach: the segment goes unless somebody attached it again. */
  function Settled(v: View, h: nat): (w: View)
    requires Sound(v) && h in v.pending
    ensures Sound(w)
  {
    var id := v.segments[h].id;
    var rest := v.(pending := v.pending - multiset{h});
    if id in v.byId && Seg(v, id).removed && Seg(v, id).attached == 0 then Forgotten(rest, id) else rest
  }

  lemma {:induction false} SettledIsExact(v: View, h: nat)
    requires Exact(v) && h in v.pending
    ensures Exact(Settled(v, h))
  {
    var w := Settled(v, h);
    forall g | 0 <= g < |w.segments| && !w.segments[g].removed
      ensures Registered(w, g)
    {
      assert Registered(v, g);
    }
    forall k | k in w.byKey
      ensures KeyExact(w, k)
    {
      assert KeyExact(v, k);
    }
    forall i | i in w.byId && Seg(w, i).removed
      ensures Held(w, i)
    {
      assert Held(v, i);
    }
  }

  /** The key index names exactly the live segments that have a key, one for each key. */
  lemma InverseIndex(v: View, k: int)
    requires Exact(v) && k != IPC_PRIVATE
    ensures k in v.byKey <==> exists h: nat :: LiveWithKey(v, h, k)
    ensures forall h: nat, g: nat :: LiveWithKey(v, h, k) && LiveWithKey(v, g, k) ==>
              h == g && v.byKey[k] == v.segments[h].id
  {
    if k in v.byKey {
      assert KeyExact(v, k) && LiveWithKey(v, v.byId[v.byKey[k]], k);
    }
    forall h: nat | LiveWithKey(v, h, k)
      ensures k in v.byKey && v.byKey[k] == v.segments[h].id && v.byId[v.byKey[k]] == h
    {
      assert Registered(v, h);
    }
  }

  predicate LiveWithKey(v: View, h: nat, k: int) {
    h < |v.segments| && !v.segments[h].removed && v.segments[h].key == k
  }

  /** What a request for a key is answered: the live segment with that key, or a new one under the next id. */
  function Answer(v: View, key: int, size: nat, flags: Flags, allowed: bool, memory: bool): Result<int>
    requires Exact(v)
  {
    if flags.hugetlb then Err(EINVAL)
    else if key != IPC_PRIVATE && key in v.byKey then
      assert KeyExact(v, key);
      if flags.creat && flags.excl then Err(EEXIST)
      else if size > Seg(v, v.byKey[key]).size then Err(EINVAL)
      else if !allowed then Err(EACCES)
      else Ok(v.byKey[key])
    else if key != IPC_PRIVATE && !flags.creat then Err(ENOENT)
    else if size == 0 then Err(EINVAL)
    else if !memory then Err(ENOMEM)
    else Ok(v.nextId)
  }

  /** A request for a key that a live segment has: that segment, or the one reason against it. */
  lemma FoundAnswers(v: View, key: int, size: nat, flags: Flags, allowed: bool, memory: bool, h: nat)
    requires Exact(v) && key != IPC_PRIVATE && LiveWithKey(v, h, key) && !flags.hugetlb
    ensures var r, seg := Answer(v, key, size, flags, allowed, memory), v.segments[h];
            var exclusive := flags.creat && flags.excl;
            && (r == Err(EEXIST) <==> exclusive)
            && (r == Err(EINVAL) <==> !exclusive && size > seg.size)
            && (r == Err(EACCES) <==> !exclusive && size <= seg.size && !allowed)
            && (r == Ok(seg.id) <==> !exclusive && size <= seg.size && allowed)
    ensures Requested(v, key, size, flags, memory) == v
  {
    assert Registered(v, h);
    NothingStale(v, key);
  }

  /** A request that no live segment answers: a new segment under the next id, or the one reason against it. */
  lemma NewAnswers(v: View, key: int, size: nat, flags: Flags, allowed: bool, memory: bool)
    requires Exact(v) && !flags.hugetlb && (key == IPC_PRIVATE || forall h: nat :: !LiveWithKey(v, h, key))
    ensures var r, w := Answer(v, key, size, flags, allowed, memory), Requested(v, key, size, flags, memory);
            var asked := key == IPC_PRIVATE || flags.creat;
            && (r == Err(ENOENT) <==> !asked)
            && (r == Err(EINVAL) <==> asked && size == 0)
            && (r == Err(ENOMEM) <==> asked && size > 0 && !memory)
            && (r == Ok(v.nextId) <==> asked && size > 0 && memory)
            && (asked && size > 0 ==> w.nextId == Min(v.nextId + 1, I32_MAX))
            && (r.Err? ==> w == v.(nextId := w.nextId) && (!asked || size == 0 ==> w == v))
            && (r.Ok? ==>
                  && w.segments == v.segments + [Segment(v.nextId, key, size, false, 0)] && w.pending == v.pending
                  && w.byId == v.byId[v.nextId := |v.segments|]
                  && w.byKey == if key == IPC_PRIVATE then v.byKey else v.byKey[key := v.nextId])
  {
    if key in v.byKey && key != IPC_PRIVATE {
      assert KeyExact(v, key);
      assert LiveWithKey(v, v.byId[v.byKey[key]], key);
    }
    NothingStale(v, key);
  }

  /** A request unbinds a key that is bound to nothing live, and binds it again only for a new segment. */
  lemma StaleKeyGoes(v: View, key: int, size: nat, flags: Flags, memory: bool)
    requires Sound(v) && Stale(v, key) && !flags.hugetlb
    ensures var w := Requested(v, key, size, flags, memory);
            if flags.creat && size > 0 && memory then key in w.byKey && w.byKey[key] == v.nextId else key !in w.byKey
  {
  }

  /** Huge pages are refused whatever else is asked. */
  lemma HugeIsRefused(v: View, key: int, size: nat, flags: Flags, allowed: bool, memory: bool)
    requires Exact(v) && flags.hugetlb
    ensures Answer(v, key, size, flags, allowed, memory) == Err(EINVAL) && Requested(v, key, size, flags, memory) == v
  {
  }

  /** A key that is bound to something no longer live; a request for it unbinds it first. */
  predicate Stale(v: View, key: int)
    requires Sound(v)
  {
    key != IPC_PRIVATE && key in v.byKey && !(v.byKey[key] in v.byId && !Seg(v, v.byKey[key]).removed)
  }

  function Unbound(v: View, key: int): View
    requires Sound(v)
  {
    if Stale(v, key) then v.(byKey := v.byKey - {key}) else v
  }

  /** A request that no live segment answers and that may create one. */
  predicate Creates(v: View, key: int, size: nat, flags: Flags)
    requires Sound(v)
  {
    !flags.hugetlb && (key == IPC_PRIVATE || (key !in Unbound(v, key).byKey && flags.creat)) && size > 0
  }

  /** What a request changes. */
  function Requested(v: View, key: int, size: nat, flags: Flags, memory: bool): (w: View)
    requires Sound(v)
    ensures Sound(w)
  {
    var u := if flags.hugetlb then v else Unbound(v, key);
    if !Creates(v, key, size, flags) then u
    else if memory then Added(u, key, size)
    else u.(nextId := Min(u.nextId + 1, I32_MAX))
  }

  /** In an exact registry no key is stale. */
  lemma NothingStale(v: View, key: int)
    requires Exact(v)
    ensures Unbound(v, key) == v
  {
    if key in v.byKey {
      assert KeyExact(v, key);
    }
  }

  lemma UnboundIsGood(v: View, key: int)
    requires Good(v)
    ensures Good(Unbound(v, key))
  {
    if v.nextId < I32_MAX {
      NothingStale(v, key);
    }
  }

  class ShmRegistry {
    var nextId: int
    var byId: map<int, nat>
    var byKey: map<int, int>
    var segments: seq<Segment>
    var pending: multiset<nat>

    constructor ()
      ensures Valid() && V() == View(1, map[], map[], [], multiset{})
    {
      nextId, byId, byKey, segments, pending := 1, map[], map[], [], multiset{};
    }

    function V(): View
      reads this
    {
      View(nextId, byId, byKey, segments, pending)
    }

    /** As long as ids have not run out the registry is exact. */
    ghost predicate Valid()
      reads this
    {
      Good(V())
    }

    /** Ids count up and stay at the largest one. */
    method AllocateId() returns (id: int)
      requires 1 <= nextId <= I32_MAX
      modifies this`nextId
      ensures id == old(nextId) && nextId == Min(old(nextId) + 1, I32_MAX)
    {
      id := nextId;
      nextId := Max(Min(nextId + 1, I32_MAX), 1);
    }

    /** The id bound to a key, or a new segment. `allowed` is the access check and `memory` the frame allocation. */
    method GetOrCreate(key: int, size: nat, flags: Flags, allowed: bool, memory: bool) returns (r: Result<int>)
      requires Valid()
      modifies this
      ensures Valid()
      ensures old(nextId) < I32_MAX ==> r == Answer(old(V()), key, size, flags, allowed, memory)
      ensures V() == Requested(old(V()), key, size, flags, memory)
    {
      if flags.hugetlb {
        return Err(EINVAL);
      }
      if key != IPC_PRIVATE && key in byKey {
        var id := byKey[key];
        assert nextId < I32_MAX ==> KeyExact(V(), key);
        UnboundIsGood(V(), key);
        if id in byId && !segments[byId[id]].removed {
          if flags.creat && flags.excl {
            return Err(EEXIST);
          }
          if size > segments[byId[id]].size {
            return Err(EINVAL);
          }
          if !allowed {
            return Err(EACCES);
          }
          return Ok(id);
        }
        byKey := byKey - {key};
      }
      if key != IPC_PRIVATE && !flags.creat {
        return Err(ENOENT);
      }
      if size == 0 {
        return Err(EINVAL);
      }
      r := Create(key, size, memory);
    }

    /** Makes a segment under the next id; without memory only the id is used up. */
    method Create(key: int, size: nat, memory: bool) returns (r: Result<int>)
      requires Valid() && (key != IPC_PRIVATE ==> key !in byKey)
      modifies this
      ensures Valid()
      ensures r == if memory then Ok(old(nextId)) else Err(ENOMEM)
      ensures V() == if memory then Added(old(V()), key, size) else old(V()).(nextId := Min(old(nextId) + 1, I32_MAX))
    {
      CreateKeepsValid(V(), key, size);
      var id := AllocateId();
      if !memory {
        return Err(ENOMEM);
      }
      segments := segments + [Segment(id, key, size, false, 0)];
      if key != IPC_PRIVATE {
        byKey := byKey[key := id];
      }
      byId := byId[id := |segments| - 1];
      r := Ok(id);
    }

    /** Forgets a segment, and its key if the key is still its own. */
    method RemoveSegment(id: int)
      requires Sound(V())
      modifies this`byId, this`byKey
      ensures V() == Forgotten(old(V()), id)
    {
      if id in byId {
        var s := segments[byId[id]];
        byId := byId - {id};
        if s.key != IPC_PRIVATE && s.key in byKey && byKey[s.key] == id {
          byKey := byKey - {s.key};
        }
      }
    }

    /** Marks a segment for removal: it leaves the key index now and the registry with its last attachment. */
    method MarkRemoved(id: int, allowed: bool) returns (r: Result<()>)
      requires Valid()
      modifies this
      ensures Valid() && nextId == old(nextId) && pending == old(pending)
      ensures r == if id !in old(byId) then Err(EINVAL) else if !allowed then Err(EPERM) else Ok(())
      ensures r.Err? ==> V() == old(V())
      ensures r.Ok? ==> V() == MarkStep(old(V()), id)
    {
      if id !in byId {
        return Err(EINVAL);
      }
      if !allowed {
        return Err(EPERM);
      }
      var h := byId[id];
      MarkKeepsGood(V(), id);
      if segments[h].key != IPC_PRIVATE && segments[h].key in byKey && byKey[segments[h].key] == id {
        byKey := byKey - {segments[h].key};
      }
      segments := segments[h := segments[h].(removed := true)];
      if segments[h].attached == 0 {
        RemoveSegment(id);
      }
      r := Ok(());
    }

    /** A holder of a segment attaches it, whether or not it is still registered. */
    method MarkAttached(h: nat)
      requires Valid() && h < |segments|
      modifies this`segments
      ensures Valid() && V() == Attached(old(V()), h)
    {
      AttachKeepsGood(V(), h);
      segments := segments[h := segments[h].(attached := segments[h].attached + 1)];
    }

    /** First step of a detach: counts down, and says whether the segment should go. */
    method MarkDetached(h: nat) returns (shouldRemove: bool)
      requires Valid() && h < |segments|
      modifies this`segments, this`pending
      ensures Valid() && V() == Detached(old(V()), h)
      ensures shouldRemove == (segments[h].removed && segments[h].attached == 0)
    {
      var left := Max(segments[h].attached - 1, 0);
      shouldRemove := segments[h].removed && left == 0;
      DetachKeepsGood(V(), h);
      segments := segments[h := segments[h].(attached := left)];
      if shouldRemove {
        pending := pending + multiset{h};
      }
    }

    /** Second step of a detach that should remove: by then somebody may have attached again. */
    method RemoveAfterDetach(h: nat)
      requires Valid() && h in pending
      modifies this
      ensures Valid() && V() == Settled(old(V()), h)
    {
      if nextId < I32_MAX {
        SettledIsExact(V(), h);
      }
      var id := segments[h].id;
      pending := pending - multiset{h};
      if id in byId && segments[byId[id]].removed && segments[byId[id]].attached == 0 {
        RemoveSegment(id);
      }
    }
  }

  // --- Whole runs ---

  datatype Op =
    | GetOp(key: int, size: nat, flags: Flags, allowed: bool, memory: bool)
    | RemoveOp(id: int, allowed: bool)
    | AttachOp(place: nat)
    | DetachOp(place: nat)
    | SettleOp(place: nat)

  /** What one operation changes; steps on places that do not exist are skipped. */
  function ViewStep(v: View, op: Op): (w: View)
    requires Sound(v)
    ensures Sound(w)
  {
    match op
    case GetOp(key, size, flags, _, memory) => Requested(v, key, size, flags, memory)
    case RemoveOp(id, allowed) =>
      if id !in v.byId || !allowed then v else MarkStep(v, id)
    case AttachOp(h) =>
      if h >= |v.segments| then v else Attached(v, h)
    case DetachOp(h) => if h >= |v.segments| then v else Detached(v, h)
    case SettleOp(h) => if h in v.pending then Settled(v, h) else v
  }

  /** The key is bound as before. */
  predicate StaysBound(v: View, w: View, k: int)
    requires k in v.byKey
  {
    k in w.byKey && w.byKey[k] == v.byKey[k]
  }

  lemma KeyStaysInRequest(v: View, key: int, size: nat, flags: Flags, memory: bool, k: int)
    requires Exact(v) && k in v.byKey
    ensures StaysBound(v, Requested(v, key, size, flags, memory), k)
  {
    NothingStale(v, key);
    assert KeyExact(v, k);
  }

  lemma KeyStaysInRemoval(v: View, id: int, k: int)
    requires Exact(v) && k in v.byKey && id in v.byId
    ensures StaysBound(v, MarkStep(v, id), k) <==> v.byKey[k] != id
  {
    assert KeyExact(v, k);
  }

  lemma KeyStaysInSettling(v: View, h: nat, k: int)
    requires Exact(v) && k in v.byKey && h in v.pending
    ensures StaysBound(v, Settled(v, h), k)
  {
    assert KeyExact(v, k);
  }

  /**
   * Through any step a key stays bound to its segment exactly unless the removal of that segment is asked and allowed.
   */
  lemma KeyStays(v: View, op: Op, k: int)
    requires Exact(v) && k in v.byKey
    ensures var w := ViewStep(v, op);
            StaysBound(v, w, k) <==> op != RemoveOp(v.byKey[k], true)
  {
    match op
    case GetOp(key, size, flags, _, memory) => KeyStaysInRequest(v, key, size, flags, memory, k);
    case RemoveOp(id, allowed) =>
      assert KeyExact(v, k);
      if id in v.byId && allowed {
        KeyStaysInRemoval(v, id, k);
      }
    case AttachOp(_) =>
    case DetachOp(_) =>
    case SettleOp(h) =>
      if h in v.pending {
        KeyStaysInSettling(v, h, k);
      }
  }

  /** The second detach step of a removed segment that is not attached. */
  predicate Settles(v: View, op: Op, id: int) {
    && op.SettleOp? && op.place in v.pending && op.place < |v.segments| && v.segments[op.place].id == id
    && v.segments[op.place].removed && v.segments[op.place].attached == 0
  }

  lemma SegmentStaysInRequest(v: View, key: int, size: nat, flags: Flags, memory: bool, id: int)
    requires Exact(v) && Below(v) && id in v.byId
    ensures var w := Requested(v, key, size, flags, memory);
            id in w.byId && w.byId[id] == v.byId[id]
  {
    NothingStale(v, key);
  }

  lemma SegmentStaysInSettling(v: View, h: nat, id: int)
    requires Exact(v) && id in v.byId && h in v.pending
    ensures var w := Settled(v, h);
            id in w.byId && w.byId[id] == v.byId[id] <==> !Settles(v, SettleOp(h), id)
  {
    assert Seg(v, id).id == id;
    if v.segments[h].id == id {
      assert v.byId[id] == h;
    }
  }

  /**
   * Through any step a segment stays registered under its id exactly unless it is removed while nobody is attached, or
   * its last detach settles after it was removed: what is attached stays.
   */
  lemma SegmentStays(v: View, op: Op, id: int)
    requires Exact(v) && Below(v) && id in v.byId
    ensures var w := ViewStep(v, op);
            id in w.byId && w.byId[id] == v.byId[id] <==>
              !(op == RemoveOp(id, true) && Seg(v, id).attached == 0) && !Settles(v, op, id)
  {
    match op
    case GetOp(key, size, flags, _, memory) => SegmentStaysInRequest(v, key, size, flags, memory, id);
    case SettleOp(h) =>
      if h in v.pending {
        SegmentStaysInSettling(v, h, id);
      }
    case _ =>
  }

  /** An allowed removal by its id marks a segment; other steps do not, and its id, key and size never change. */
  lemma StepMarks(v: View, op: Op, h: nat)
    requires Sound(v) && h < |v.segments|
    ensures h < |ViewStep(v, op).segments|
    ensures var was, now := v.segments[h], ViewStep(v, op).segments[h];
            && now.id == was.id && now.key == was.key && now.size == was.size
            && (now.removed <==> was.removed || (op.RemoveOp? && op.allowed && op.id in v.byId && v.byId[op.id] == h))
  {
  }

  /** A last detach is pending exactly from when a removed segment is left without attachments until it settles. */
  lemma StepPending(v: View, op: Op, h: nat)
    requires Sound(v) && h < |v.segments|
    ensures ViewStep(v, op).pending[h] == v.pending[h]
              + (if op == DetachOp(h) && v.segments[h].removed && v.segments[h].attached <= 1 then 1 else 0)
              - (if op == SettleOp(h) && h in v.pending then 1 else 0)
  {
  }

  /** Forgetting a segment unbinds its key, when that is still its own, and no other. */
  lemma ForgottenUnbinds(v: View, id: int, k: int)
    requires Exact(v) && id in v.byId && k in v.byKey
    ensures k in Forgotten(v, id).byKey <==> v.byKey[k] != id
  {
    assert KeyExact(v, k);
  }

  function ViewAfter(ops: seq<Op>): (v: View)
    ensures Sound(v)
  {
    if ops == [] then View(1, map[], map[], [], multiset{}) else ViewStep(ViewAfter(ops[..|ops| - 1]), ops[|ops| - 1])
  }

  /** Attaches minus detaches of a segment, from when it was made. */
  function Balance(ops: seq<Op>, h: nat): int {
    if ops == [] then 0
    else
      var before, op := ops[..|ops| - 1], ops[|ops| - 1];
      Balance(before, h) + if h >= |ViewAfter(before).segments| then 0
                           else if op == AttachOp(h) then 1 else if op == DetachOp(h) then -1 else 0
  }

  /** One step and the attach count of a segment: attach and detach move it by one, and a new segment starts at none. */
  lemma StepAttached(v: View, op: Op, h: nat)
    requires Sound(v) && h < |ViewStep(v, op).segments|
    ensures var now := ViewStep(v, op).segments[h].attached;
            if h >= |v.segments| then now == 0
            else now == if op == AttachOp(h) then v.segments[h].attached + 1
                        else if op == DetachOp(h) then Max(v.segments[h].attached - 1, 0)
                        else v.segments[h].attached
  {
  }

  lemma StepKeepsPlaces(v: View, op: Op)
    requires Sound(v)
    ensures |v.segments| <= |ViewStep(v, op).segments|
  {
  }

  /** As long as nobody detaches what is not attached, the attach count is the number of attaches minus detaches. */
  lemma {:induction false} AttachedIsBalance(ops: seq<Op>, h: nat)
    requires h < |ViewAfter(ops).segments| && forall k | 0 <= k <= |ops| :: Balance(ops[..k], h) >= 0
    ensures ViewAfter(ops).segments[h].attached == Balance(ops, h)
  {
    assert ops[..|ops|] == ops;
    if ops != [] {
      var before := ops[..|ops| - 1];
      StepAttached(ViewAfter(before), ops[|ops| - 1], h);
      forall k | 0 <= k <= |before| ensures Balance(before[..k], h) >= 0 {
        assert before[..k] == ops[..k];
      }
      if h < |ViewAfter(before).segments| {
        AttachedIsBalance(before, h);
      } else {
        NoBalanceYet(before, h);
      }
    }
  }

  lemma {:induction false} NoBalanceYet(ops: seq<Op>, h: nat)
    requires h >= |ViewAfter(ops).segments|
    ensures Balance(ops, h) == 0
  {
    if ops != [] {
      StepKeepsPlaces(ViewAfter(ops[..|ops| - 1]), ops[|ops| - 1]);
      NoBalanceYet(ops[..|ops| - 1], h);
    }
  }

  method Step(registry: ShmRegistry, op: Op)
    requires registry.Valid()
    modifies registry
    ensures registry.Valid() && registry.V() == ViewStep(old(registry.V()), op)
  {
    match op
    case GetOp(key, size, flags, allowed, memory) =>
      var _ := registry.GetOrCreate(key, size, flags, allowed, memory);
    case RemoveOp(id, allowed) =>
      var _ := registry.MarkRemoved(id, allowed);
    case AttachOp(h) =>
      if h < |registry.segments| {
        registry.MarkAttached(h);
      }
    case DetachOp(h) =>
      if h < |registry.segments| {
        var _ := registry.MarkDetached(h);
      }
    case SettleOp(h) =>
      if h in registry.pending {
        registry.RemoveAfterDetach(h);
      }
  }

  /**
   * Any interleaving of requests and detach steps from an empty registry: it is what the operations decide, and exact
   * as long as the ids have not run out.
   */
  method Run(ops: seq<Op>) returns (registry: ShmRegistry)
    ensures registry.V() == ViewAfter(ops)
    ensures ViewAfter(ops).nextId < I32_MAX ==> Exact(ViewAfter(ops))
  {
    registry := new ShmRegistry();
    for i := 0 to |ops|
      invariant fresh(registry) && registry.Valid() && registry.V() == ViewAfter(ops[..i])
    {
      assert ops[..i + 1][..i] == ops[..i];
      Step(registry, ops[i]);
    }
    assert ops[..|ops|] == ops;
  }

  /** Once the ids have run out, two requests get the same id and the first segment is no longer found. */
  method IdsRunOut(registry: ShmRegistry, k1: int, k2: int)
    requires registry.Valid() && registry.nextId == I32_MAX
    requires k1 != k2 && k1 != IPC_PRIVATE && k2 != IPC_PRIVATE && k1 !in registry.byKey && k2 !in registry.byKey
    modifies registry
    ensures var v := registry.V();
            && Sound(v) && k1 in v.byKey && k2 in v.byKey && v.byKey[k1] == v.byKey[k2] == I32_MAX
            && I32_MAX in v.byId && Seg(v, I32_MAX).key == k2
  {
    var r := registry.Create(k1, 1, true);
    r := registry.Create(k2, 1, true);
  }
}
