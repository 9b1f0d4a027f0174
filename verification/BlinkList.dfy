/**
  The linked list of blinking characters inside its fixed pool.  A slot is free when its
  location is 0; the list is threaded through the slots by `next`.  Every operation is proved
  to be the one of `BlinkSpec` on the list's contents.
 */
module BlinkList {
  import opened BlinkSpec

  const NULL: int := -1

  /** A pool slot; `next` is the slot of the next element, or NULL. */
  datatype Node = Node(value: Blink, next: int)

  const EMPTY: Node := Node(Blink(0, 0, 0, 0, 0, 0, 0), 0)

  // ------------------------------------------------------------------ chains of slots

  ghost predicate Distinct(chain: seq<int>) {
    forall i, j | 0 <= i < j < |chain| :: chain[i] != chain[j]
  }

  /** The slot in place `i` of the chain, or NULL behind its end. */
  function Link(chain: seq<int>, i: nat): int {
    if i < |chain| then chain[i] else NULL
  }

  /** `chain` is what following `next` from `head` visits, and it ends. */
  ghost predicate IsChain(pool: seq<Node>, head: int, chain: seq<int>) {
    && (forall i | 0 <= i < |chain| :: 0 <= chain[i] < |pool|)
    && Distinct(chain)
    && head == Link(chain, 0)
    && forall i | 0 <= i < |chain| :: pool[chain[i]].next == Link(chain, i + 1)
  }

  /** A slot is in use, by the free test, exactly when it is in the list. */
  ghost predicate PoolAgrees(pool: seq<Node>, chain: seq<int>) {
    && |pool| == SCREEN
    && forall k | 0 <= k < |pool| :: (pool[k].value.location != 0 <==> k in chain) && pool[k].value.location < SCREEN
  }

  /** The slots of `chain` hold a linked list, and no other slot looks used. */
  ghost predicate IsList(pool: seq<Node>, head: int, chain: seq<int>) {
    IsChain(pool, head, chain) && PoolAgrees(pool, chain)
  }

  /** The elements of the list, from head to end. */
  ghost function Contents(pool: seq<Node>, chain: seq<int>): (l: seq<Blink>)
    requires forall i | 0 <= i < |chain| :: 0 <= chain[i] < |pool|
    ensures |l| == |chain|
  {
    seq(|chain|, i requires 0 <= i < |chain| => pool[chain[i]].value)
  }

  // The pool is full exactly when the list has as many elements as there are slots.

  ghost function Slots(n: nat): (s: set<int>)
    ensures |s| == n && forall k :: k in s <==> 0 <= k < n
  {
    if n == 0 then {} else Slots(n - 1) + {n - 1}
  }

  lemma {:induction false} DistinctSize(chain: seq<int>)
    requires Distinct(chain)
    ensures |set i | i in chain| == |chain|
  {
    if chain != [] {
      var rest, last := chain[..|chain| - 1], chain[|chain| - 1];
      DistinctSize(rest);
      assert (set i | i in chain) == (set i | i in rest) + {last};
    }
  }

  lemma FullIff(chain: seq<int>, n: nat)
    requires Distinct(chain) && forall i | i in chain :: 0 <= i < n
    ensures |chain| <= n
    ensures |chain| == n <==> forall k | 0 <= k < n :: k in chain
  {
    var s := set i | i in chain;
    DistinctSize(chain);
    Subset(s, Slots(n));
    if forall k | 0 <= k < n :: k in chain {
      assert s == Slots(n);
    } else {
      var k :| 0 <= k < n && k !in chain;
      assert k in Slots(n) && k !in s;
    }
  }

  lemma Subset(s: set<int>, t: set<int>)
    requires s <= t
    ensures |s| <= |t|
    ensures |s| == |t| ==> s == t
  {
    assert |t - s| == |t| - |s|;
  }

  // ------------------------------------------------------------------ adding

  /** The lowest slot from `from` on that looks free, or NULL. */
  function FreeSlot(pool: seq<Node>, from: nat): (p: int)
    requires from <= |pool|
    ensures p == NULL || from <= p < |pool|
    ensures p != NULL ==> pool[p].value.location == 0
    ensures forall k | from <= k < (if p == NULL then |pool| else p) :: pool[k].value.location != 0
    decreases |pool| - from
  {
    if from == |pool| then NULL
    else if pool[from].value.location == 0 then from
    else FreeSlot(pool, from + 1)
  }

  lemma FreeSlotIff(pool: seq<Node>, chain: seq<int>)
    requires PoolAgrees(pool, chain) && Distinct(chain)
    requires forall i | 0 <= i < |chain| :: 0 <= chain[i] < |pool|
    ensures FreeSlot(pool, 0) != NULL <==> |chain| < SCREEN
  {
    FullIff(chain, SCREEN);
    if FreeSlot(pool, 0) == NULL {
      assert forall k | 0 <= k < SCREEN :: pool[k].value.location != 0;
    } else {
      assert FreeSlot(pool, 0) !in chain;
    }
  }

  /** Storing an element in a free slot in front of the list. */
  lemma AddedInFront(pool: seq<Node>, head: int, chain: seq<int>, p: nat, b: Blink)
    requires IsChain(pool, head, chain) && PoolAgrees(pool, chain)
    requires p < |pool| && pool[p].value.location == 0 && b.location < SCREEN
    ensures var next := pool[p := Node(Started(b), head)];
            && IsChain(next, p, [p] + chain)
            && Contents(next, [p] + chain) == [Started(b)] + Contents(pool, chain)
            && (PoolAgrees(next, [p] + chain) <==> b.location != 0)
  {
    assert p !in chain;
    AddedChain(pool, head, chain, p, b);
    AddedPool(pool, chain, p, Node(Started(b), head));
    AddedContents(pool, chain, p, Node(Started(b), head));
  }

  lemma AddedContents(pool: seq<Node>, chain: seq<int>, p: nat, node: Node)
    requires (forall i | 0 <= i < |chain| :: 0 <= chain[i] < |pool|) && p < |pool| && p !in chain
    ensures Contents(pool[p := node], [p] + chain) == [node.value] + Contents(pool, chain)
  {
  }

  lemma AddedChain(pool: seq<Node>, head: int, chain: seq<int>, p: nat, b: Blink)
    requires IsChain(pool, head, chain) && p < |pool| && p !in chain
    ensures IsChain(pool[p := Node(Started(b), head)], p, [p] + chain)
  {
  }

  lemma AddedPool(pool: seq<Node>, chain: seq<int>, p: nat, node: Node)
    requires PoolAgrees(pool, chain) && p < |pool| && p !in chain && node.value.location < SCREEN
    ensures PoolAgrees(pool[p := node], [p] + chain) <==> node.value.location != 0
  {
    var next, longer := pool[p := node], [p] + chain;
    assert p in longer;
    if node.value.location != 0 {
      forall k | 0 <= k < |next|
        ensures (next[k].value.location != 0 <==> k in longer) && next[k].value.location < SCREEN
      {
      }
    } else {
      assert next[p].value.location == 0;
    }
  }

  /** A list whose head looks free is no list at all. */
  lemma FreeHeadIsBroken(pool: seq<Node>, head: nat)
    requires head < |pool| && pool[head].value.location == 0
    ensures forall chain: seq<int> :: !IsList(pool, head, chain)
  {
    forall chain: seq<int>
      ensures !IsList(pool, head, chain)
    {
      assert IsChain(pool, head, chain) ==> chain != [] && chain[0] == head;
      assert PoolAgrees(pool, chain) ==> head !in chain;
    }
  }

  /** What add does to the pool and the head, whatever state they are in. */
  function AddNode(pool: seq<Node>, head: int, b: Blink): (r: (seq<Node>, int, bool)) {
    var p := FreeSlot(pool, 0);
    if b.location >= SCREEN || p == NULL then (pool, head, false)
    else (pool[p := Node(Started(b), head)], p, true)
  }

  /**
    Adding an element at location 0 breaks the list: the slot still looks free, so the next
    element is stored over it and linked to itself.
   */
  lemma LocationZeroLoops(pool: seq<Node>, head: int, b: Blink, c: Blink)
    requires b.location == 0 && c.location < SCREEN && FreeSlot(pool, 0) != NULL
    ensures var (pool1, head1, ok1) := AddNode(pool, head, b);
            var (pool2, head2, ok2) := AddNode(pool1, head1, c);
            ok1 && ok2 && head2 == head1 && pool2[head2].next == head2
  {
    var (pool1, head1, _) := AddNode(pool, head, b);
    FreeSlotIs(pool1, 0, head1);
  }

  lemma FreeSlotIs(pool: seq<Node>, from: nat, p: nat)
    requires from <= p < |pool| && pool[p].value.location == 0
    requires forall k | from <= k < p :: pool[k].value.location != 0
    ensures FreeSlot(pool, from) == p
  {
  }

  // ------------------------------------------------------------------ removing and updating

  function WithNext(node: Node, next: int): Node {
    node.(next := next)
  }

  /** The pool once place `i` of the chain is unlinked and zeroed. */
  ghost function Unlinked(pool: seq<Node>, chain: seq<int>, i: nat): (r: seq<Node>)
    requires i < |chain| && forall j | 0 <= j < |chain| :: 0 <= chain[j] < |pool|
    ensures |r| == |pool|
  {
    if i == 0 then pool[chain[0] := EMPTY]
    else pool[chain[i - 1] := WithNext(pool[chain[i - 1]], pool[chain[i]].next)][chain[i] := EMPTY]
  }

  function Without<T>(s: seq<T>, i: nat): (r: seq<T>)
    requires i < |s|
    ensures |r| == |s| - 1
    ensures forall j | 0 <= j < |r| :: r[j] == if j < i then s[j] else s[j + 1]
  {
    s[..i] + s[i + 1..]
  }

  lemma UnlinkedChain(pool: seq<Node>, head: int, chain: seq<int>, i: nat)
    requires IsChain(pool, head, chain) && i < |chain|
    ensures IsChain(Unlinked(pool, chain, i), if i == 0 then pool[chain[0]].next else head, Without(chain, i))
  {
    var next, shorter := Unlinked(pool, chain, i), Without(chain, i);
    WithoutDistinct(chain, i);
    forall j | 0 <= j < |shorter|
      ensures 0 <= shorter[j] < |next| && next[shorter[j]].next == Link(shorter, j + 1)
    {
      UnlinkedLink(pool, head, chain, i, j);
    }
  }

  lemma WithoutDistinct(chain: seq<int>, i: nat)
    requires Distinct(chain) && i < |chain|
    ensures Distinct(Without(chain, i))
  {
  }

  /** The link in place `j` of the shortened chain. */
  lemma UnlinkedLink(pool: seq<Node>, head: int, chain: seq<int>, i: nat, j: nat)
    requires IsChain(pool, head, chain) && i < |chain| && j < |chain| - 1
    ensures var p := Without(chain, i)[j];
            0 <= p < |pool| && Unlinked(pool, chain, i)[p].next == Link(Without(chain, i), j + 1)
  {
  }

  lemma UnlinkedPool(pool: seq<Node>, chain: seq<int>, i: nat)
    requires PoolAgrees(pool, chain) && Distinct(chain) && i < |chain|
    requires forall j | 0 <= j < |chain| :: 0 <= chain[j] < |pool|
    ensures PoolAgrees(Unlinked(pool, chain, i), Without(chain, i))
  {
  }

  lemma UnlinkedContents(pool: seq<Node>, chain: seq<int>, i: nat)
    requires Distinct(chain) && i < |chain| && forall j | 0 <= j < |chain| :: 0 <= chain[j] < |pool|
    ensures forall j | 0 <= j < |chain| - 1 :: 0 <= Without(chain, i)[j] < |pool|
    ensures Contents(Unlinked(pool, chain, i), Without(chain, i)) == Without(Contents(pool, chain), i)
  {
  }

  /** Changing values but neither links nor locations keeps the list. */
  lemma SameShape(pool: seq<Node>, next: seq<Node>, head: int, chain: seq<int>)
    requires IsChain(pool, head, chain) && PoolAgrees(pool, chain) && |next| == |pool|
    requires forall k | 0 <= k < |pool| ::
               next[k].next == pool[k].next && next[k].value.location == pool[k].value.location
    ensures IsChain(next, head, chain) && PoolAgrees(next, chain)
  {
  }

  /** A list of which the first `i` elements have been counted down. */
  lemma HalfTicked(l: seq<Blink>, i: nat)
    requires i < |l|
    ensures var half := TickedAll(l)[..i] + l[i..];
            half[i] == l[i] && half[i := Ticked(l[i])] == TickedAll(l)[..i + 1] + l[i + 1..]
  {
  }

  lemma Halves(high: Word16, low: Word16)
    ensures (high * 0x1_0000 + low) / 0x1_0000 == high && (high * 0x1_0000 + low) % 0x1_0000 == low
  {
  }

  // ------------------------------------------------------------------ the operations

  class BlinkList {
    const blinkArray: array<Node>
    var listHead: int
    ghost var chain: seq<int>

    ghost predicate Valid()
      reads this, blinkArray
    {
      IsList(blinkArray[..], listHead, chain)
    }

    ghost function View(): seq<Blink>
      requires Valid()
      reads this, blinkArray
    {
      Contents(blinkArray[..], chain)
    }

    /** The zeroed pool and the null head. */
    constructor ()
      ensures Valid() && View() == [] && fresh(blinkArray)
    {
      blinkArray := new Node[SCREEN](_ => EMPTY);
      listHead := NULL;
      chain := [];
    }

    /** mp1_malloc: the lowest slot that looks free. */
    method Malloc() returns (p: int)
      ensures p == FreeSlot(blinkArray[..], 0)
    {
      for i := 0 to blinkArray.Length
        invariant FreeSlot(blinkArray[..], 0) == FreeSlot(blinkArray[..], i)
      {
        if blinkArray[i].value.location == 0 {
          return i;
        }
      }
      return NULL;
    }

    /** mp1_free: zeroes the slot. */
    method Free(p: nat)
      requires p < blinkArray.Length
      modifies blinkArray
      ensures blinkArray[..] == old(blinkArray[..])[p := EMPTY]
    {
      StoreNode(p, EMPTY);
    }

    /** mp1_find_helper: the first node with the location. */
    method FindHelper(location: Word16) returns (p: int)
      requires Valid()
      ensures p == Link(chain, FirstAt(View(), location))
    {
      p := listHead;
      ghost var i, l := 0, View();
      while p != NULL
        invariant i <= |chain| && p == Link(chain, i)
        invariant forall j | 0 <= j < i :: l[j].location != location
        decreases |chain| - i
      {
        assert blinkArray[p].value == l[i];
        if blinkArray[p].value.location == location {
          FirstAtIs(l, location, i);
          return p;
        }
        p := blinkArray[p].next;
        i := i + 1;
      }
      FirstAtIs(l, location, |chain|);
    }

    /**
      mp1_ioctl_add: it fails exactly when the location is off the screen or the pool is full.
      Location 0 is not refused, and a node stored with it looks free: the list is intact
      afterwards exactly when nothing was added or the location was not 0.
     */
    method IoctlAdd(b: Blink) returns (r: int)
      requires Valid()
      modifies this, blinkArray
      ensures r == if Accepts(old(View()), b) then 0 else -1
      ensures r == if b.location < 2000 && |old(View())| < 2000 then 0 else -1
      ensures (blinkArray[..], listHead, r == 0) == AddNode(old(blinkArray[..]), old(listHead), b)
      ensures Valid() <==> r == -1 || b.location != 0
      ensures !Valid() ==> forall c: seq<int> :: !IsList(blinkArray[..], listHead, c)
      ensures Valid() ==> View() == Apply(old(View()), Add(b))
    {
      if b.location >= SCREEN {
        return -1;
      }
      var temp := b.(status := 1, countdown := b.onLength);
      var p := Malloc();
      FreeSlotIff(blinkArray[..], chain);
      if p == NULL {
        return -1;
      }
      AddedInFront(blinkArray[..], listHead, chain, p, b);
      StoreNode(p, Node(temp, listHead));
      listHead := p;
      chain := [p] + chain;
      if b.location == 0 {
        FreeHeadIsBroken(blinkArray[..], p);
      }
      return 0;
    }

    /** ece391_memcpy of a whole structure into a slot. */
    method StoreNode(p: nat, node: Node)
      requires p < blinkArray.Length
      modifies blinkArray
      ensures blinkArray[..] == old(blinkArray[..])[p := node]
    {
      blinkArray[p] := node;
    }

    /** mp1_ioctl_remove. */
    method IoctlRemove(location: Word16) returns (r: int)
      requires Valid()
      modifies this, blinkArray
      ensures Valid()
      ensures View() == Apply(old(View()), Remove(location))
      ensures r == if FirstAt(old(View()), location) < |old(View())| then 0 else -1
    {
      var p := FindHelper(location);
      ghost var at := FirstAt(View(), location);
      if p == NULL {
        return -1;
      }
      Unlink(p, at);
      return 0;
    }

    /** Finds the link that leads to `p`, redirects it past `p`, and frees `p`. */
    method Unlink(p: nat, ghost at: nat)
      requires Valid() && at < |chain| && chain[at] == p
      modifies this, blinkArray
      ensures Valid()
      ensures View() == Without(old(View()), at)
    {
      UnlinkedChain(blinkArray[..], listHead, chain, at);
      UnlinkedPool(blinkArray[..], chain, at);
      UnlinkedContents(blinkArray[..], chain, at);
      ghost var shorter, unlinked := Without(chain, at), Unlinked(blinkArray[..], chain, at);
      var prev := FindPrev(p, at);
      var next := blinkArray[p].next;
      if prev == NULL {
        listHead := next;
      } else {
        StoreNode(prev, WithNext(blinkArray[prev], next));
      }
      Free(p);
      chain := shorter;
      assert blinkArray[..] == unlinked;
    }

    /** The node whose link leads to `p`, or NULL for the head. */
    method FindPrev(p: nat, ghost at: nat) returns (prev: int)
      requires Valid() && at < |chain| && chain[at] == p
      ensures prev == if at == 0 then NULL else chain[at - 1]
    {
      prev := NULL;
      var cur := listHead;
      ghost var i := 0;
      while cur != p
        invariant i <= at && cur == Link(chain, i)
        invariant prev == if i == 0 then NULL else chain[i - 1]
        decreases at - i
      {
        prev := cur;
        cur := blinkArray[cur].next;
        i := i + 1;
      }
    }

    /** mp1_ioctl_find: copies out the first structure with the location. */
    method IoctlFind(location: Word16) returns (r: int, found: Blink)
      requires Valid()
      ensures r == if FirstAt(View(), location) < |View()| then 0 else -1
      ensures r == 0 ==> found == View()[FirstAt(View(), location)]
    {
      found := EMPTY.value;
      var p := FindHelper(location);
      if p == NULL {
        return -1, found;
      }
      return 0, blinkArray[p].value;
    }

    /** mp1_ioctl_sync: source location in the high half of `arg`, target in the low half. */
    method IoctlSync(arg: nat) returns (r: int)
      requires Valid() && arg < 0x1_0000_0000
      modifies blinkArray
      ensures Valid()
      ensures View() == Apply(old(View()), Sync(arg / 0x1_0000, arg % 0x1_0000))
      ensures r == var l := old(View());
                   if FirstAt(l, arg / 0x1_0000) < |l| && FirstAt(l, arg % 0x1_0000) < |l| then 0 else -1
    {
      var p := FindHelper(arg / 0x1_0000);
      if p == NULL {
        return -1;
      }
      var q := FindHelper(arg % 0x1_0000);
      if q == NULL {
        return -1;
      }
      var from, to := blinkArray[p].value, blinkArray[q].value;
      to := to.(onLength := from.onLength);
      to := to.(offLength := from.offLength);
      to := to.(countdown := from.countdown);
      to := to.(status := from.status);
      StoreValue(q, to, FirstAt(View(), arg % 0x1_0000));
      return 0;
    }

    /** Overwrites the value of the node in place `at`, keeping its location and link. */
    method StoreValue(p: nat, value: Blink, ghost at: nat)
      requires Valid() && at < |chain| && chain[at] == p
      requires value.location == blinkArray[p].value.location
      modifies blinkArray
      ensures Valid()
      ensures View() == old(View())[at := value]
      ensures blinkArray[p].next == old(blinkArray[p].next)
    {
      SameShape(blinkArray[..], blinkArray[..][p := blinkArray[p].(value := value)], listHead, chain);
      StoreNode(p, blinkArray[p].(value := value));
    }

    /** mp1_rtc_tasklet: counts every node of the list down. */
    method RtcTasklet()
      requires Valid()
      modifies blinkArray
      ensures Valid()
      ensures View() == Apply(old(View()), Tick)
    {
      ghost var l := View();
      var p := listHead;
      ghost var i := 0;
      while p != NULL
        invariant Valid() && |chain| == |l|
        invariant i <= |chain| && p == Link(chain, i)
        invariant View() == TickedAll(l)[..i] + l[i..]
        decreases |chain| - i
      {
        HalfTicked(l, i);
        TickNode(p, i);
        p := blinkArray[p].next;
        i := i + 1;
      }
    }

    /** The body of the tasklet's loop. */
    method TickNode(p: nat, ghost at: nat)
      requires Valid() && at < |chain| && chain[at] == p
      modifies blinkArray
      ensures Valid()
      ensures View() == old(View())[at := Ticked(old(View())[at])]
      ensures blinkArray[p].next == old(blinkArray[p].next)
    {
      var b := blinkArray[p].value;
      assert b == View()[at];
      b := CountDown(b);
      StoreValue(p, b, at);
    }

    static method CountDown(b: Blink) returns (r: Blink)
      ensures r == Ticked(b)
    {
      r := b.(countdown := if b.countdown == 0 then 0xFFFF else b.countdown - 1);
      if !(0 < r.countdown < 0x8000) {
        var length := if r.status % 2 == 1 then r.offLength else r.onLength;
        r := r.(countdown := length);
        r := r.(status := if r.status % 2 == 1 then r.status - 1 else r.status + 1);
      }
    }

    /** Main result: under any sequence of operations the list stays a list and the pool agrees with it. */
    method HandleAll(ops: seq<Op>)
      requires Valid()
      requires forall op | op in ops :: op.Add? ==> op.b.location != 0
      modifies this, blinkArray
      ensures Valid()
      ensures View() == Run(old(View()), ops)
    {
      ghost var start := View();
      for i := 0 to |ops|
        invariant Valid()
        invariant View() == Run(start, ops[..i])
      {
        assert ops[..i + 1][..i] == ops[..i];
        Handle(ops[i]);
      }
      assert ops[..|ops|] == ops;
    }

    method Handle(op: Op)
      requires Valid() && (op.Add? ==> op.b.location != 0)
      modifies this, blinkArray
      ensures Valid()
      ensures View() == Apply(old(View()), op)
    {
      match op {
        case Add(b) => var _ := IoctlAdd(b);
        case Remove(location) => var _ := IoctlRemove(location);
        case Find(location) => var _, _ := IoctlFind(location);
        case Sync(source, target) =>
          Halves(source, target);
          var _ := IoctlSync(source * 0x1_0000 + target);
        case Tick => RtcTasklet();
      }
    }
  }
}
