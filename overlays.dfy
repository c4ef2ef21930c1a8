/**
  Overlays and the singly linked overlay chains of a buffer.

  Overlays live in an arena (a sequence of records addressed by their
  index); the `next` field of a record is the index of the following overlay
  of the same chain, or None at the end of the chain.
 */
module Overlays {
  import opened Wrappers

  /** Index of an overlay in the arena. */
  type OverlayId = nat

  /** Identity of a buffer, as a marker refers to it. */
  type BufferId = nat

  /** A text anchor: the buffer it belongs to (None once detached) and its position. */
  datatype Marker = Marker(buffer: Option<BufferId>, charpos: int)

  /** An overlay's property list, as property-name and value pairs. */
  type PropertyList = seq<(string, string)>

  datatype Overlay = Overlay(start: Marker, end: Marker, plist: PropertyList, next: Option<OverlayId>)

  /**
    chain is the sequence of overlays met by following `next` links from
    head until a missing link, in link order.
   */
  ghost predicate IsChain(arena: seq<Overlay>, head: Option<OverlayId>, chain: seq<OverlayId>)
    decreases |chain|
  {
    match head
    case None => chain == []
    case Some(o) =>
      && |chain| > 0
      && chain[0] == o
      && o < |arena|
      && IsChain(arena, arena[o].next, chain[1..])
  }

  /** A head determines its chain. */
  lemma {:induction false} ChainUnique(arena: seq<Overlay>, head: Option<OverlayId>, c1: seq<OverlayId>, c2: seq<OverlayId>)
    requires IsChain(arena, head, c1) && IsChain(arena, head, c2)
    ensures c1 == c2
    decreases |c1|
  {
    match head
    case None =>
    case Some(o) =>
      ChainUnique(arena, arena[o].next, c1[1..], c2[1..]);
      assert c1 == [o] + c1[1..];
      assert c2 == [o] + c2[1..];
  }

  /** Every suffix of a chain is the chain of its first overlay. */
  lemma {:induction false} ChainSuffix(arena: seq<Overlay>, head: Option<OverlayId>, chain: seq<OverlayId>, i: nat)
    requires IsChain(arena, head, chain) && i < |chain|
    ensures IsChain(arena, Some(chain[i]), chain[i..])
    decreases i
  {
    if i > 0 {
      ChainSuffix(arena, arena[chain[0]].next, chain[1..], i - 1);
      assert chain[1..][i - 1..] == chain[i..];
    }
  }

  /** Chains of different lengths start at different heads. */
  lemma {:induction false} ChainsOfDifferentLengthsDiffer(arena: seq<Overlay>, h1: Option<OverlayId>, h2: Option<OverlayId>,
                                                         c1: seq<OverlayId>, c2: seq<OverlayId>)
    requires IsChain(arena, h1, c1) && IsChain(arena, h2, c2) && |c1| != |c2|
    ensures h1 != h2
    decreases |c1|
  {
    if h1.Some? && h2.Some? {
      ChainsOfDifferentLengthsDiffer(arena, arena[h1.value].next, arena[h2.value].next, c1[1..], c2[1..]);
    }
  }

  /** A chain that reaches its end never visits an overlay twice. */
  lemma ChainHasNoDuplicates(arena: seq<Overlay>, head: Option<OverlayId>, chain: seq<OverlayId>)
    requires IsChain(arena, head, chain)
    ensures forall i, j :: 0 <= i < j < |chain| ==> chain[i] != chain[j]
  {
    forall i, j | 0 <= i < j < |chain|
      ensures chain[i] != chain[j]
    {
      ChainSuffix(arena, head, chain, i);
      ChainSuffix(arena, head, chain, j);
      ChainsOfDifferentLengthsDiffer(arena, Some(chain[i]), Some(chain[j]), chain[i..], chain[j..]);
    }
  }

  /** An overlay with no `next` link iterates as a chain of itself alone. */
  lemma UnlinkedOverlayChain(arena: seq<Overlay>, o: OverlayId, chain: seq<OverlayId>)
    requires o < |arena| && arena[o].next == None
    ensures IsChain(arena, Some(o), chain) <==> chain == [o]
  {
    if IsChain(arena, Some(o), chain) {
      assert chain == [o] + chain[1..];
    }
  }

  /** An iterator over the overlays of one chain, following `next` links. */
  class OverlayIter {
    const arena: seq<Overlay>
    var current: Option<OverlayId>
    ghost var Remaining: seq<OverlayId>  // the overlays the iterator has still to yield

    ghost predicate Valid()
      reads this
    {
      IsChain(arena, current, Remaining)
    }

    /** Start an iteration at overlay head. */
    constructor (arena: seq<Overlay>, head: OverlayId, ghost chain: seq<OverlayId>)
      requires IsChain(arena, Some(head), chain)
      ensures Valid()
      ensures this.arena == arena && current == Some(head) && Remaining == chain
    {
      this.arena := arena;
      current := Some(head);
      Remaining := chain;
    }

    /** Yield the current overlay and move to its `next` link; None once the chain has ended. */
    method Next() returns (r: Option<OverlayId>)
      requires Valid()
      modifies this
      ensures Valid()
      ensures r == old(current)
      ensures r.Some? ==> r.value < |arena| && current == arena[r.value].next
      ensures r.None? ==> current == None
      ensures old(Remaining) == [] ==> r == None && Remaining == []
      ensures old(Remaining) != [] ==> r == Some(old(Remaining)[0]) && Remaining == old(Remaining)[1..]
    {
      var c := current;
      match c {
        case None =>
          r := None;
        case Some(o) =>
          current := arena[o].next;
          Remaining := Remaining[1..];
          r := c;
      }
    }
  }

  /** The elements of s in reverse order (the effect of `Fnreverse` on a list). */
  function Reverse<T>(s: seq<T>): (r: seq<T>)
    ensures |r| == |s|
  {
    if s == [] then [] else Reverse(s[1..]) + [s[0]]
  }

  /** Consing x in front of a reversed prefix reverses the extended prefix. */
  lemma {:induction false} ReverseSnoc<T>(s: seq<T>, x: T)
    ensures Reverse(s + [x]) == [x] + Reverse(s)
    decreases |s|
  {
    if s != [] {
      assert (s + [x])[1..] == s[1..] + [x];
      ReverseSnoc(s[1..], x);
    }
  }

  /** Reversing twice gives back the original order. */
  lemma {:induction false} ReverseReverse<T>(s: seq<T>)
    ensures Reverse(Reverse(s)) == s
    decreases |s|
  {
    if s != [] {
      ReverseSnoc(Reverse(s[1..]), s[0]);
      ReverseReverse(s[1..]);
      assert s == [s[0]] + s[1..];
    }
  }

  /**
    Fold the chain from head into a list by consing each overlay onto the
    accumulator, which yields the chain in reverse order.
   */
  method ListOverlays(arena: seq<Overlay>, head: OverlayId, ghost chain: seq<OverlayId>) returns (folded: seq<OverlayId>)
    requires IsChain(arena, Some(head), chain)
    ensures folded == Reverse(chain)
  {
    var it := new OverlayIter(arena, head, chain);
    folded := [];
    ghost var seen: seq<OverlayId> := [];
    var n := it.Next();
    while n.Some?
      invariant it.Valid() && it.arena == arena
      invariant n.Some? ==> seen + [n.value] + it.Remaining == chain
      invariant n.None? ==> seen == chain
      invariant folded == Reverse(seen)
      decreases |it.Remaining| + (if n.Some? then 1 else 0)
    {
      ReverseSnoc(seen, n.value);
      folded := [n.value] + folded;
      seen := seen + [n.value];
      n := it.Next();
    }
  }

  /**
    What deleting an overlay does: nothing, or detach it from a buffer and
    maybe set that buffer's prevent-redisplay-optimisations flag.  The flag
    is only ever set, never cleared: false leaves it as it was.
   */
  datatype DeleteOutcome = NotAttached | Detached(buffer: BufferId, setsPreventRedisplay: bool)

  /**
    The condition under which deleting an overlay turns off the buffer's
    redisplay optimisations, grouped as the source groups it.
   */
  predicate PreventsRedisplay(windowsOrBuffersChanged: int, hasBeforeString: bool, hasAfterString: bool)
  {
    (windowsOrBuffersChanged != 0 && hasBeforeString) || hasAfterString
  }

  /** An after-string alone decides; a before-string counts only while windows or buffers have changed. */
  lemma PreventsRedisplayGrouping(windowsOrBuffersChanged: int, hasBeforeString: bool, hasAfterString: bool)
    ensures hasAfterString ==> PreventsRedisplay(windowsOrBuffersChanged, hasBeforeString, hasAfterString)
    ensures !hasAfterString ==>
              (PreventsRedisplay(windowsOrBuffersChanged, hasBeforeString, hasAfterString) <==> (windowsOrBuffersChanged != 0 && hasBeforeString))
    ensures windowsOrBuffersChanged == 0 ==>
              (PreventsRedisplay(windowsOrBuffersChanged, hasBeforeString, hasAfterString) <==> hasAfterString)
  {
  }

  /**
    The condition the comment above the deletion test describes: an overlay
    with a before-string or an after-string turns the optimisations off,
    whatever the windows-or-buffers-changed counter holds.
   */
  predicate PreventsRedisplayAsCommented(hasBeforeString: bool, hasAfterString: bool)
  {
    hasBeforeString || hasAfterString
  }

  /**
    The condition as written and the condition as commented disagree on
    exactly one kind of deletion: a before-string, no after-string, and a
    zero counter.  As written never turns the optimisations off where the
    commented one does not.
   */
  lemma RedisplayConditionsDiffer(windowsOrBuffersChanged: int, hasBeforeString: bool, hasAfterString: bool)
    ensures PreventsRedisplay(windowsOrBuffersChanged, hasBeforeString, hasAfterString) ==>
              PreventsRedisplayAsCommented(hasBeforeString, hasAfterString)
    ensures (PreventsRedisplay(windowsOrBuffersChanged, hasBeforeString, hasAfterString)
             != PreventsRedisplayAsCommented(hasBeforeString, hasAfterString))
            <==> (windowsOrBuffersChanged == 0 && hasBeforeString && !hasAfterString)
  {
  }

  /** The overlay with only a before-string, deleted while the counter is zero, keeps the optimisations on as written. */
  lemma BeforeStringIgnoredWhenUnchanged()
    ensures !PreventsRedisplay(0, true, false)
    ensures PreventsRedisplayAsCommented(true, false)
  {
  }

  /**
    The control flow of deleting overlay ov.  Whether its property list
    holds a non-nil before-string and after-string is given, as is the
    global windows-or-buffers-changed counter.
   */
  function DeleteOverlay(ov: Overlay, windowsOrBuffersChanged: int, hasBeforeString: bool, hasAfterString: bool): (r: DeleteOutcome)
    ensures r == NotAttached <==> ov.start.buffer == None
    ensures r.Detached? ==> r.buffer == ov.start.buffer.value
    ensures r.Detached? ==> (r.setsPreventRedisplay <==> PreventsRedisplay(windowsOrBuffersChanged, hasBeforeString, hasAfterString))
  {
    match ov.start.buffer
    case None => NotAttached
    case Some(b) => Detached(b, PreventsRedisplay(windowsOrBuffersChanged, hasBeforeString, hasAfterString))
  }

  /** The store that allocates overlays. */
  class OverlayArena {
    var overlays: seq<Overlay>

    constructor ()
      ensures overlays == []
    {
      overlays := [];
    }

    /** Allocate an overlay with the given markers and property list, linked to nothing. */
    method BuildOverlay(start: Marker, end: Marker, plist: PropertyList) returns (id: OverlayId)
      modifies this
      ensures overlays == old(overlays) + [Overlay(start, end, plist, None)]
      ensures id == |old(overlays)|
      ensures IsChain(overlays, Some(id), [id])
    {
      id := |overlays|;
      overlays := overlays + [Overlay(start, end, plist, None)];
      UnlinkedOverlayChain(overlays, id, [id]);
    }
  }
}
