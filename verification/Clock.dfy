/** The second-chance sweep that picks a frame to evict. */
module Clock {

  import opened Arithmetic
  import opened Options

  /** Names one page table entry, so that an accessed bit has an owner. */
  type Pte = nat

  datatype Frame = Frame(kpage: nat, pinned: bool, owners: seq<Pte>)

  ghost function Owners(f: Frame): (r: set<Pte>) {
    set o | o in f.owners
  }

  /** The frame under the hand after `k` moves from frame `h`. */
  ghost function At(frames: seq<Frame>, h: nat, k: nat): (r: Frame)
    requires h < |frames|
  {
    frames[(h + k) % |frames|]
  }

  /** The accessed bits that the first `k` visits clear. */
  ghost function Cleared(frames: seq<Frame>, h: nat, k: nat): (r: set<Pte>)
    requires h < |frames|
  {
    if k == 0 then {}
    else
      var f := At(frames, h, k - 1);
      Cleared(frames, h, k - 1) + if f.pinned then {} else Owners(f)
  }

  /** Those are the bits of the owners of the unpinned frames visited, and no others. */
  lemma {:induction false} ClearedIs(frames: seq<Frame>, h: nat, k: nat, o: Pte)
    requires h < |frames|
    ensures o in Cleared(frames, h, k) <==> exists u :: 0 <= u < k && !At(frames, h, u).pinned && o in At(frames, h, u).owners
  {
    hide At;
    if k > 0 { ClearedIs(frames, h, k - 1, o); }
  }

  /** Visit `k` moves on without choosing the frame. */
  ghost predicate Passed(frames: seq<Frame>, h: nat, accessed: set<Pte>, k: nat)
    requires h < |frames|
  {
    var f := At(frames, h, k);
    f.pinned || (accessed - Cleared(frames, h, k)) * Owners(f) != {}
  }

  /** Visit `k` is the first that does not move on. */
  ghost predicate Chosen(frames: seq<Frame>, h: nat, accessed: set<Pte>, k: nat)
    requires h < |frames|
  {
    !Passed(frames, h, accessed, k) && forall u :: 0 <= u < k ==> Passed(frames, h, accessed, u)
  }

  lemma {:induction false} ClearedGrows(frames: seq<Frame>, h: nat, j: nat, k: nat)
    requires h < |frames| && j < k && !At(frames, h, j).pinned
    ensures Owners(At(frames, h, j)) <= Cleared(frames, h, k)
  {
    if j < k - 1 { ClearedGrows(frames, h, j, k - 1); }
  }

  /** One lap later the hand is on the same frame. */
  lemma LapLater(frames: seq<Frame>, h: nat, k: nat)
    requires h < |frames|
    ensures At(frames, h, k + |frames|) == At(frames, h, k)
  {
    var n := |frames|;
    ModAdd(h + k, n);
    assert h + (k + n) == (h + k) + n;
  }

  lemma ModAdd(a: nat, n: nat)
    requires n > 0
    ensures (a + n) % n == a % n
  {
    DivUnique(a + n, n, a / n + 1, a % n);
  }

  /** Every frame is visited within the first lap. */
  lemma VisitedOnce(frames: seq<Frame>, h: nat, i: nat) returns (k: nat)
    requires h < |frames| && i < |frames|
    ensures k < |frames| && (h + k) % |frames| == i && At(frames, h, k) == frames[i]
  {
    var n := |frames|;
    if i >= h {
      k := i - h;
      DivUnique(h + k, n, 0, i);
    } else {
      k := i + n - h;
      DivUnique(h + k, n, 1, i);
    }
  }

  /** An unpinned frame is not passed over a second time. */
  lemma NotTwice(frames: seq<Frame>, h: nat, accessed: set<Pte>, k: nat)
    requires h < |frames| && !At(frames, h, k).pinned
    ensures !Passed(frames, h, accessed, k + |frames|)
  {
    LapLater(frames, h, k);
    ClearedGrows(frames, h, k, k + |frames|);
  }

  /** Two laps find a victim exactly when some frame is not pinned. */
  lemma TwoLaps(frames: seq<Frame>, h: nat, accessed: set<Pte>)
    requires h < |frames|
    ensures (forall u :: 0 <= u < 2 * |frames| ==> Passed(frames, h, accessed, u)) <==> forall i :: 0 <= i < |frames| ==> frames[i].pinned
  {
    if i :| 0 <= i < |frames| && !frames[i].pinned {
      var k := VisitedOnce(frames, h, i);
      NotTwice(frames, h, accessed, k);
    }
  }

  /** No two frames have an owner in common: a page table entry maps one frame. */
  ghost predicate DisjointOwners(frames: seq<Frame>) {
    forall i, j :: 0 <= i < j < |frames| ==> Owners(frames[i]) !! Owners(frames[j])
  }

  lemma {:induction false} ClearedApart(frames: seq<Frame>, h: nat, k: nat, m: nat)
    requires h < |frames| && DisjointOwners(frames) && k <= m < |frames|
    ensures Cleared(frames, h, k) !! Owners(At(frames, h, m))
  {
    if k > 0 {
      hide Owners;
      ClearedApart(frames, h, k - 1, m);
      DifferentFrames(|frames|, h, k - 1, m);
      assert Owners(At(frames, h, k - 1)) !! Owners(At(frames, h, m));
    }
  }

  lemma DifferentFrames(n: nat, h: nat, j: nat, k: nat)
    requires h < n && j < k < n
    ensures (h + j) % n != (h + k) % n
  {
    var a, b := h + j, h + k;
    if a % n == b % n {
      assert (b / n - a / n) * n == k - j;
      if b / n - a / n >= 1 { MulMono(1, b / n - a / n, n); } else { MulMono(b / n - a / n, 0, n); }
      assert false;
    }
  }

  /** In the first lap no bit has been cleared ahead of the hand. */
  lemma FirstLap(frames: seq<Frame>, h: nat, accessed: set<Pte>, u: nat)
    requires h < |frames| && DisjointOwners(frames) && u < |frames|
    ensures Passed(frames, h, accessed, u) <==>
              At(frames, h, u).pinned || Owners(At(frames, h, u)) * accessed != {}
  {
    ClearedApart(frames, h, u, u);
    assert (accessed - Cleared(frames, h, u)) * Owners(At(frames, h, u)) == Owners(At(frames, h, u)) * accessed;
  }

  /** The second-chance rule: the victim is the first unpinned frame that none of its
      owners accessed, and only if there is no such frame the first unpinned one. */
  lemma SecondChance(frames: seq<Frame>, h: nat, accessed: set<Pte>, k: nat)
    requires h < |frames| && DisjointOwners(frames) && Chosen(frames, h, accessed, k)
    ensures !At(frames, h, k).pinned
    ensures k < |frames| ==> Owners(At(frames, h, k)) * accessed == {}
    ensures forall u :: 0 <= u < k && u < |frames| && !At(frames, h, u).pinned ==> Owners(At(frames, h, u)) * accessed != {}
    ensures k >= |frames| ==> k < 2 * |frames| && forall u :: |frames| <= u < k ==> At(frames, h, u).pinned
  {
    assert !At(frames, h, k).pinned;
    hide At, Passed, Owners, DisjointOwners, Cleared;
    forall u | 0 <= u < k && u < |frames| && !At(frames, h, u).pinned ensures Owners(At(frames, h, u)) * accessed != {} {
      FirstLap(frames, h, accessed, u);
    }
    if k < |frames| { FirstLap(frames, h, accessed, k); } else { SecondLap(frames, h, accessed, k); }
  }

  lemma SecondLap(frames: seq<Frame>, h: nat, accessed: set<Pte>, k: nat)
    requires h < |frames| && Chosen(frames, h, accessed, k) && k >= |frames|
    ensures k < 2 * |frames| && forall u :: |frames| <= u < k ==> At(frames, h, u).pinned
  {
    var n := |frames|;
    forall u | n <= u < k ensures At(frames, h, u).pinned {
      LapLater(frames, h, u - n);
      assert Passed(frames, h, accessed, u);
      if !At(frames, h, u - n).pinned { NotTwice(frames, h, accessed, u - n); }
    }
    AtSome(frames, h, k);
    TwoLaps(frames, h, accessed);
  }

  lemma AtSome(frames: seq<Frame>, h: nat, k: nat)
    requires h < |frames|
    ensures exists i :: 0 <= i < |frames| && frames[i] == At(frames, h, k)
  {
    assert frames[(h + k) % |frames|] == At(frames, h, k);
  }

  /** What one visit does to the bits that are left. */
  lemma VisitIs(frames: seq<Frame>, h: nat, was: set<Pte>, k: nat, left: set<Pte>)
    requires h < |frames| && left == was - Cleared(frames, h, k)
    ensures var f := At(frames, h, k);
            && (Passed(frames, h, was, k) <==> f.pinned || left * Owners(f) != {})
            && was - Cleared(frames, h, k + 1) == left - (if f.pinned then {} else Owners(f))
  {
  }

  class FrameTable {
    var frames: seq<Frame>
    var hand: nat
    var accessed: set<Pte>

    constructor (frames: seq<Frame>, hand: nat, accessed: set<Pte>)
      ensures this.frames == frames && this.hand == hand && this.accessed == accessed
    {
      this.frames, this.hand, this.accessed := frames, hand, accessed;
    }

    /** next_frame_, with the hand on a frame. */
    function NextHand(): (r: nat)
      requires hand < |frames|
      reads this
    {
      if hand + 1 == |frames| then 0 else hand + 1
    }

    /** Tests and clears the accessed bits of a frame's owners. */
    method TestAndClear(owners: seq<Pte>) returns (any: bool)
      modifies this`accessed
      ensures accessed == old(accessed) - set o | o in owners
      ensures any <==> old(accessed) * (set o | o in owners) != {}
    {
      any := false;
      var i := 0;
      while i < |owners|
        invariant i <= |owners|
        invariant accessed == old(accessed) - set o | o in owners[..i]
        invariant any <==> exists j :: 0 <= j < i && owners[j] in old(accessed)
      {
        if owners[i] in accessed {
          accessed := accessed - {owners[i]};
          any := true;
        }
        assert owners[..i + 1] == owners[..i] + [owners[i]];
        i := i + 1;
      }
      assert owners[..i] == owners;
      if any {
        ghost var j :| 0 <= j < |owners| && owners[j] in old(accessed);
        assert owners[j] in old(accessed) * set o | o in owners;
      } else {
        assert forall o :: o in owners ==> o !in old(accessed);
      }
    }

    /** One turn of the loop of frame_evict. */
    method Visit() returns (at: nat, taken: bool)
      requires hand < |frames|
      modifies this`hand, this`accessed
      ensures at == old(hand) && hand == (if at + 1 == |frames| then 0 else at + 1)
      ensures taken <==> !frames[at].pinned && old(accessed) * Owners(frames[at]) == {}
      ensures accessed == old(accessed) - if frames[at].pinned then {} else Owners(frames[at])
    {
      at := hand;
      hand := NextHand();
      taken := false;
      if !frames[at].pinned {
        var any := TestAndClear(frames[at].owners);
        taken := !any;
      }
    }

    /** The loop of frame_evict. The victim, if any, is the frame of the first visit
        that is not passed over. There is none exactly if every frame is pinned; then no
        accessed bit has been cleared, and the hand is behind the first frame. */
    method Sweep() returns (victim: Option<nat>, ghost k: nat)
      requires hand < |frames|
      modifies this`hand, this`accessed
      ensures victim.None? <==> forall i :: 0 <= i < |frames| ==> frames[i].pinned
      ensures victim.Some? ==>
                && victim.value == (old(hand) + k) % |frames| && victim.value < |frames|
                && Chosen(frames, old(hand), old(accessed), k)
                && accessed == old(accessed) - Cleared(frames, old(hand), k)
      ensures hand < |frames|
      ensures victim.Some? ==> hand == (victim.value + 1) % |frames|
      ensures victim.None? ==> accessed == old(accessed) && hand == if |frames| == 1 then 0 else 1
    {
      hide Passed, Cleared, Owners;
      victim, k := None, 0;
      ghost var h, was, n := hand, accessed, |frames|;
      var cycle := 0;
      ghost var q := 0;
      ClearedNone(frames, h);
      while cycle <= 2
        invariant cycle <= 3 && hand < n && n == |frames|
        invariant h + k == q * n + hand && q >= 0
        invariant cycle == q + (if hand > 0 then 1 else 0) - (if h > 0 then 1 else 0)
        invariant cycle == 3 ==> hand == if n == 1 then 0 else 1
        invariant accessed == was - Cleared(frames, h, k)
        invariant forall u :: 0 <= u < k ==> Passed(frames, h, was, u)
        decreases 3 - cycle, if hand == 0 then 0 else n - hand
      {
        DivUnique(h + k, n, q, hand);
        VisitIs(frames, h, was, k, accessed);
        if hand == 0 { cycle := cycle + 1; }
        var at, taken := Visit();
        NextIs(at, hand, n);
        if taken {
          victim := Some(at);
          assert accessed == was - Cleared(frames, h, k);
          break;
        }
        LapCount(q, n, at, hand);
        q, k := if hand == 0 then q + 1 else q, k + 1;
      }
      if victim.None? {
        Enough(h, k, q, hand, n, cycle);
        TwoLaps(frames, h, was);
        ClearedPinned(frames, h, k);
      } else {
        TwoLapsVictim(frames, h, was, k);
      }
    }
  }

  lemma ClearedNone(frames: seq<Frame>, h: nat)
    requires h < |frames|
    ensures Cleared(frames, h, 0) == {}
  {
  }

  lemma {:induction false} ClearedPinned(frames: seq<Frame>, h: nat, k: nat)
    requires h < |frames| && forall i :: 0 <= i < |frames| ==> frames[i].pinned
    ensures Cleared(frames, h, k) == {}
  {
    if k > 0 { ClearedPinned(frames, h, k - 1); }
  }

  lemma LapCount(q: nat, n: nat, at: nat, next: nat)
    requires at < n && next == if at + 1 == n then 0 else at + 1
    ensures q * n + at + 1 == (if next == 0 then q + 1 else q) * n + next
  {
    if next == 0 { assert (q + 1) * n == q * n + n; }
  }

  lemma NextIs(at: nat, next: nat, n: nat)
    requires at < n && next == if at + 1 == n then 0 else at + 1
    ensures next == (at + 1) % n
  {
    if at + 1 == n { DivUnique(n, n, 1, 0); } else { DivUnique(at + 1, n, 0, at + 1); }
  }

  lemma Enough(h: nat, k: nat, q: nat, hand: nat, n: nat, cycle: nat)
    requires h < n && hand < n && h + k == q * n + hand
    requires cycle == 3 == q + (if hand > 0 then 1 else 0) - (if h > 0 then 1 else 0)
    ensures k >= 2 * n
  {
    if q == 2 { assert q * n == 2 * n; } else if q == 3 { assert q * n == 3 * n; } else { assert q == 4 && q * n == 4 * n; }
  }

  lemma TwoLapsVictim(frames: seq<Frame>, h: nat, accessed: set<Pte>, k: nat)
    requires h < |frames| && !Passed(frames, h, accessed, k)
    ensures !frames[(h + k) % |frames|].pinned
  {
  }
}
