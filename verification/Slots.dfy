/** Which slots of a proof meet: those whose keys agree. */
module Slots {
  import opened Cycles

  type Key = (nat, nat)

  /** Slots other than `i` with the key of `i`. */
  ghost function Matches(keys: seq<Key>, i: nat): set<nat>
    requires i < |keys|
  {
    set k: nat | k < |keys| && k != i && keys[k] == keys[i]
  }

  /**
    The slot `i` may step to. With `twist` the two endpoints have to differ, as in Cuckatoo, where nodes
    meet their neighbour in the lowest bit rather than themselves.
  */
  ghost function LinkAt(keys: seq<Key>, ends: seq<nat>, twist: bool, i: nat): Link
    requires i < |keys| == |ends|
  {
    if exists j, k :: j in Matches(keys, i) && k in Matches(keys, i) && j != k then Forked
    else if Matches(keys, i) == {} then Unmatched
    else
      var j :| j in Matches(keys, i);
      if twist && ends[j] == ends[i] then Unmatched else To(j)
  }

  ghost function Links(keys: seq<Key>, ends: seq<nat>, twist: bool): seq<Link>
    requires |keys| == |ends|
  {
    seq(|keys|, i requires 0 <= i < |keys| => LinkAt(keys, ends, twist, i))
  }

  /** `j` is the only slot with the key of `i`. */
  ghost predicate OnlyMatch(keys: seq<Key>, i: nat, j: nat) {
    && i < |keys| && j < |keys| && i != j && keys[j] == keys[i]
    && forall k :: 0 <= k < |keys| && k != i && k != j ==> keys[k] != keys[i]
  }

  lemma LinkMeaning(keys: seq<Key>, ends: seq<nat>, twist: bool, i: nat, j: nat)
    requires i < |keys| == |ends|
    ensures LinkAt(keys, ends, twist, i) == To(j) <==> OnlyMatch(keys, i, j) && !(twist && ends[j] == ends[i])
  {
    assert forall k: nat :: k in Matches(keys, i) <==> k < |keys| && k != i && keys[k] == keys[i];
  }

  /** A slot is forked if and only if two others have its key, and unmatched if none may be stepped to. */
  lemma LinkKinds(keys: seq<Key>, ends: seq<nat>, twist: bool, i: nat)
    requires i < |keys| == |ends|
    ensures LinkAt(keys, ends, twist, i) == Forked <==>
            exists j, k :: 0 <= j < k < |keys| && j != i && k != i && keys[j] == keys[i] == keys[k]
    ensures LinkAt(keys, ends, twist, i) == Unmatched <==>
            || (forall j :: 0 <= j < |keys| && j != i ==> keys[j] != keys[i])
            || exists j: nat :: OnlyMatch(keys, i, j) && twist && ends[j] == ends[i]
  {
    assert forall k: nat :: k in Matches(keys, i) <==> k < |keys| && k != i && keys[k] == keys[i];
    if exists j, k :: 0 <= j < k < |keys| && j != i && k != i && keys[j] == keys[i] == keys[k] {
      var j, k :| 0 <= j < k < |keys| && j != i && k != i && keys[j] == keys[i] == keys[k];
      LinkForked(keys, ends, twist, i, j, k);
    } else if j :| 0 <= j < |keys| && j != i && keys[j] == keys[i] {
      LinkFound(keys, ends, twist, i, j);
    } else {
      LinkUnmatched(keys, ends, twist, i);
    }
  }

  /** A scan that met nobody, or exactly one slot, knows the link. */
  lemma LinkFound(keys: seq<Key>, ends: seq<nat>, twist: bool, i: nat, j: nat)
    requires i < |keys| == |ends| && OnlyMatch(keys, i, j)
    ensures LinkAt(keys, ends, twist, i) == if twist && ends[j] == ends[i] then Unmatched else To(j)
  {
    assert j in Matches(keys, i);
    assert forall k :: k in Matches(keys, i) ==> k == j;
  }

  lemma LinkForked(keys: seq<Key>, ends: seq<nat>, twist: bool, i: nat, j: nat, k: nat)
    requires i < |keys| == |ends| && j < |keys| && k < |keys| && i != j && i != k && j != k
    requires keys[j] == keys[i] == keys[k]
    ensures LinkAt(keys, ends, twist, i) == Forked
  {
    assert j in Matches(keys, i) && k in Matches(keys, i);
  }

  lemma LinkUnmatched(keys: seq<Key>, ends: seq<nat>, twist: bool, i: nat)
    requires i < |keys| == |ends| && forall k :: 0 <= k < |keys| && k != i ==> keys[k] != keys[i]
    ensures LinkAt(keys, ends, twist, i) == Unmatched
  {
    assert Matches(keys, i) == {};
  }

  lemma LinksMutual(keys: seq<Key>, ends: seq<nat>, twist: bool)
    requires |keys| == |ends| > 0 && |keys| % 2 == 0
    ensures Mutual(Links(keys, ends, twist))
  {
    var links := Links(keys, ends, twist);
    forall i | 0 <= i < |links| && links[i].To?
      ensures links[i].slot < |links| && links[i].slot != i && links[links[i].slot] == To(i)
    {
      var j := links[i].slot;
      LinkMeaning(keys, ends, twist, i, j);
      assert OnlyMatch(keys, j, i);
      LinkMeaning(keys, ends, twist, j, i);
    }
  }

  /** Every slot of a full cycle meets exactly one other. */
  lemma CycleMatches(keys: seq<Key>, ends: seq<nat>, twist: bool, w: seq<nat>, i: nat) returns (j: nat)
    requires |keys| == |ends| > 0 && |keys| % 2 == 0 && i < |keys|
    requires FullCycle(Links(keys, ends, twist), w)
    ensures OnlyMatch(keys, i, j) && !(twist && ends[j] == ends[i])
  {
    LinksMutual(keys, ends, twist);
    FullCycleLinksAll(Links(keys, ends, twist), w, i);
    j := LinkAt(keys, ends, twist, i).slot;
    LinkMeaning(keys, ends, twist, i, j);
  }
}
