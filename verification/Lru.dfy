/**
 The LRU replacer.  A linked-list node keeps its identity while others come and go, which is what
 the iterators stored in the hash table rely on.
 */
module Lru {
  import opened Defs

  // ----- What the replacer does to the list of evictable frames, most recent first -----

  function Without(list: seq<int>, f: int): (r: seq<int>)
    ensures forall x :: x in r <==> x in list && x != f
    ensures |r| <= |list|
  {
    if list == [] then [] else (if list[0] == f then [] else [list[0]]) + Without(list[1..], f)
  }

  function WithFront(list: seq<int>, f: int): seq<int> {
    if f in list then list else [f] + list
  }

  lemma {:induction false} WithoutAt(list: seq<int>, i: nat)
    requires NoDuplicates(list) && i < |list|
    ensures Without(list, list[i]) == list[..i] + list[i + 1..]
  {
    if i == 0 {
      WithoutAbsent(list[1..], list[0]);
    } else {
      WithoutAt(list[1..], i - 1);
    }
  }

  lemma {:induction false} WithoutAbsent(list: seq<int>, f: int)
    requires f !in list
    ensures Without(list, f) == list
  {
    if list != [] { WithoutAbsent(list[1..], f); }
  }

  // ----- The replacer -----

  datatype ListNode = ListNode(address: nat, frame: int)

  function FramesOf(list: seq<ListNode>): (r: seq<int>)
    ensures |r| == |list| && forall i | 0 <= i < |list| :: r[i] == list[i].frame
  {
    seq(|list|, i requires 0 <= i < |list| => list[i].frame)
  }

  /** The hash table maps exactly the listed frames, each to the one node that holds it. */
  ghost predicate Linked(list: seq<ListNode>, hash: map<int, nat>, next: nat) {
    && NoDuplicates(FramesOf(list))
    && (forall f :: f in hash <==> f in FramesOf(list))
    && (forall i | 0 <= i < |list| :: list[i].address < next && list[i].frame in hash && hash[list[i].frame] == list[i].address)
    && (forall i, j | 0 <= i < j < |list| :: list[i].address != list[j].address)
  }

  lemma LinkedErase(list: seq<ListNode>, hash: map<int, nat>, next: nat, i: nat)
    requires Linked(list, hash, next) && i < |list|
    ensures var list' := list[..i] + list[i + 1..];
            Linked(list', hash - {list[i].frame}, next) && FramesOf(list') == Without(FramesOf(list), list[i].frame)
  {
    var list', frames := list[..i] + list[i + 1..], FramesOf(list);
    assert FramesOf(list') == frames[..i] + frames[i + 1..];
    WithoutAt(frames, i);
    EraseDistinct(frames, i);
    LinkedPart(list, hash, next, i);
  }

  lemma LinkedPart(list: seq<ListNode>, hash: map<int, nat>, next: nat, i: nat)
    requires Linked(list, hash, next) && i < |list|
    ensures var list', hash' := list[..i] + list[i + 1..], hash - {list[i].frame};
            && (forall k | 0 <= k < |list'| ::
                  list'[k].address < next && list'[k].frame in hash' && hash'[list'[k].frame] == list'[k].address)
            && (forall j, k | 0 <= j < k < |list'| :: list'[j].address != list'[k].address)
  {
    var list' := list[..i] + list[i + 1..];
    var frames := FramesOf(list);
    forall k | 0 <= k < |list'| ensures list'[k] == list[if k < i then k else k + 1] && list'[k].frame != list[i].frame {
      assert frames[if k < i then k else k + 1] != frames[i];
    }
  }

  lemma EraseDistinct(list: seq<int>, i: nat)
    requires NoDuplicates(list) && i < |list|
    ensures var r := list[..i] + list[i + 1..]; NoDuplicates(r) && forall f :: f in r <==> f in list && f != list[i]
  {
    WithoutAt(list, i);
    var r := list[..i] + list[i + 1..];
    forall k | 0 <= k < |r| ensures r[k] == list[if k < i then k else k + 1] { }
  }

  lemma LinkedPush(list: seq<ListNode>, hash: map<int, nat>, next: nat, f: int)
    requires Linked(list, hash, next) && f !in hash
    ensures var list' := [ListNode(next, f)] + list;
            Linked(list', hash[f := next], next + 1) && FramesOf(list') == [f] + FramesOf(list)
  {
    var list' := [ListNode(next, f)] + list;
    assert FramesOf(list') == [f] + FramesOf(list);
    assert forall k | 0 < k < |list'| :: list'[k] == list[k - 1];
  }

  class LruReplacer {
    var list: seq<ListNode>
    var hash: map<int, nat>
    var nextAddress: nat

    ghost predicate Valid()
      reads this
    {
      Linked(list, hash, nextAddress)
    }

    ghost function Frames(): seq<int>
      reads this
    {
      FramesOf(list)
    }

    constructor ()
      ensures Valid() && Frames() == []
    {
      list, hash, nextAddress := [], map[], 0;
    }

    /** Where the node with this address stands in the list. */
    method Find(address: nat) returns (i: nat)
      requires exists k :: 0 <= k < |list| && list[k].address == address
      ensures i < |list| && list[i].address == address
    {
      i := 0;
      while list[i].address != address
        invariant 0 <= i < |list| && forall k | 0 <= k < i :: list[k].address != address
        decreases |list| - i
      {
        i := i + 1;
      }
    }

    method Victim() returns (ok: bool, frame: int)
      requires Valid()
      modifies this
      ensures Valid() && (ok <==> old(Frames()) != [])
      ensures !ok ==> frame == -1 && Frames() == []
      ensures ok ==> old(Frames()) == Frames() + [frame]
    {
      if list == [] { return false, -1; }
      frame := list[|list| - 1].frame;
      list := list[..|list| - 1];
      hash := hash - {frame};
      return true, frame;
    }

    method Pin(frame: int)
      requires Valid()
      modifies this
      ensures Valid() && Frames() == Without(old(Frames()), frame)
      ensures frame !in old(Frames()) ==> Frames() == old(Frames())
      ensures forall i | 0 <= i < |old(Frames())| && old(Frames())[i] == frame :: Frames() == old(Frames())[..i] + old(Frames())[i + 1..]
    {
      if frame in hash {
        assert frame in FramesOf(list);
        var i := Find(hash[frame]);
        assert list[i].frame == frame;
        LinkedErase(list, hash, nextAddress, i);
        ghost var frames := Frames();
        assert forall k | 0 <= k < |frames| && frames[k] == frame :: k == i;
        WithoutAt(frames, i);
        list := list[..i] + list[i + 1..];
        hash := hash - {frame};
      } else {
        WithoutAbsent(Frames(), frame);
      }
    }

    method Unpin(frame: int)
      requires Valid()
      modifies this
      ensures Valid() && Frames() == WithFront(old(Frames()), frame)
      ensures frame in old(Frames()) ==> Frames() == old(Frames())
      ensures frame !in old(Frames()) ==> Frames() == [frame] + old(Frames())
    {
      if frame !in hash {
        LinkedPush(list, hash, nextAddress, frame);
        list := [ListNode(nextAddress, frame)] + list;
        hash := hash[frame := nextAddress];
        nextAddress := nextAddress + 1;
      }
    }

    method Size() returns (n: nat)
      ensures n == |Frames()|
    {
      return |list|;
    }
  }
}
