/** How the two halves of a sub-queue fit together: a range of indices that a run of the claim protocol hands to a
    consumer can be taken out of the storage, whichever of the other ranges have been taken out already. */
module ClaimedRuns {
  import opened Basics
  import opened Circular
  import opened ProducerBase
  import D = DequeueClaims
  import E = ExplicitProducer
  import I = ImplicitProducer

  // Index x is in claim i.
  ghost predicate InClaim(log: seq<(int, int)>, i: nat, x: nat)
    requires i < |log|
  {
    log[i].0 <= x < log[i].0 + log[i].1
  }

  // The indices taken out are those of the claims whose numbers are in `taken`.
  ghost predicate TakenOut(done: set<nat>, log: seq<(int, int)>, taken: set<nat>)
  {
    && (forall i :: i in taken ==> i < |log|)
    && (forall x :: x in done ==> IsTaken(log, taken, x))
    && (forall x: nat, i :: i in taken && InClaim(log, i, x) ==> x in done)
  }

  ghost predicate IsTaken(log: seq<(int, int)>, taken: set<nat>, x: nat)
  {
    exists i :: i in taken && i < |log| && InClaim(log, i, x)
  }

  // A run of the protocol with claim number i, in which every call asks for at least one element.
  ghost predicate Claimed(s0: D.State, events: seq<D.Action>, s: D.State, log: seq<(int, int)>, i: nat)
  {
    D.Initial(s0) && D.Run(D.Unbounded, s0, events, s, log) && D.AllWant(events) && i < |log|
  }

  // Ranges that come one after the other share no index.
  lemma OnlyOneClaim(log: seq<(int, int)>, i: nat, j: nat, x: nat)
    requires i < |log| && j < |log| && i != j
    requires forall k, l :: 0 <= k < l < |log| ==> log[k].0 + log[k].1 <= log[l].0
    ensures !InClaim(log, i, x) || !InClaim(log, j, x)
  {
    assert i < j ==> log[i].0 + log[i].1 <= log[j].0;
    assert j < i ==> log[j].0 + log[j].1 <= log[i].0;
  }

  lemma ClaimFits(s0: D.State, events: seq<D.Action>, s: D.State, log: seq<(int, int)>, i: nat)
    requires Claimed(s0, events, s, log, i)
    ensures 0 <= log[i].0 && 0 < log[i].1 && log[i].0 + log[i].1 <= s.head <= s.tail
  {
    var g := D.InvOfRun(s0, events, s, log);
    D.GrantedBelowTail(s, g);
    D.ConsecutiveInside(log, 0, s.head, i);
    D.WantedClaims(s0, events, s, log);
  }

  /** What taking out a run asks for holds of every claim that has not been taken out. */
  lemma ClaimReady(s0: D.State, events: seq<D.Action>, s: D.State, log: seq<(int, int)>, i: nat, taken: set<nat>,
                   done: set<nat>)
    requires Claimed(s0, events, s, log, i) && i !in taken && TakenOut(done, log, taken)
    ensures 0 <= log[i].0 && 0 < log[i].1 && log[i].0 + log[i].1 <= s.head <= s.tail
    ensures forall x: nat :: InClaim(log, i, x) ==> x !in done
  {
    ClaimFits(s0, events, s, log, i);
    D.ClaimsAreElements(s0, events, s, log);
    forall x | x in done ensures !InClaim(log, i, x) {
      assert IsTaken(log, taken, x);
      var j: nat :| j in taken && j < |log| && InClaim(log, j, x);
      OnlyOneClaim(log, i, j, x);
    }
  }

  lemma OneMoreTaken(done: set<nat>, log: seq<(int, int)>, taken: set<nat>, i: nat, k: nat, count: nat)
    requires TakenOut(done, log, taken) && i < |log| && k == log[i].0 && count == log[i].1
    ensures TakenOut(done + Range(k, k + count), log, taken + {i})
  {
    var done', taken' := done + Range(k, k + count), taken + {i};
    forall x | x in done' ensures IsTaken(log, taken', x) {
      if x in done {
        assert IsTaken(log, taken, x);
        var j: nat :| j in taken && j < |log| && InClaim(log, j, x);
        assert j in taken' && j < |log| && InClaim(log, j, x);
      } else {
        assert i in taken' && i < |log| && InClaim(log, i, x);
      }
    }
  }

  lemma {:induction false} SomeClaim(log: seq<(int, int)>, a: int, b: int, x: nat) returns (i: nat)
    requires D.Consecutive(log, a, b) && a <= x < b
    ensures i < |log| && InClaim(log, i, x)
  {
    if x < log[0].0 + log[0].1 {
      i := 0;
    } else {
      var j := SomeClaim(log[1..], a + log[0].1, b, x);
      i := j + 1;
    }
  }

  /** Once every claim has been taken out, exactly the indices below the head have: no element is left behind. */
  lemma AllTaken(s0: D.State, events: seq<D.Action>, s: D.State, log: seq<(int, int)>, taken: set<nat>, done: set<nat>)
    requires D.Initial(s0) && D.Run(D.Unbounded, s0, events, s, log) && TakenOut(done, log, taken)
    requires forall i :: 0 <= i < |log| ==> i in taken
    ensures forall x: nat :: x in done <==> x < s.head
  {
    var g := D.InvOfRun(s0, events, s, log);
    forall x | x in done ensures x < s.head {
      assert IsTaken(log, taken, x);
      var j: nat :| j in taken && j < |log| && InClaim(log, j, x);
      D.ConsecutiveInside(log, 0, s.head, j);
    }
    forall x: nat | x < s.head ensures x in done {
      var i := SomeClaim(log, 0, s.head, x);
      assert i in taken && InClaim(log, i, x);
    }
  }

  /** An implicit producer that stands where the run of the protocol does: any claim not taken out yet can be, with its
      elements in order, and each block it finishes is handed back. */
  method TakeImplicit<T>(p: I.ImplicitProducer<T>, firstIndex: nat, count: nat, ghost i: nat, ghost taken: set<nat>,
                         ghost s0: D.State, ghost events: seq<D.Action>, ghost s: D.State, ghost log: seq<(int, int)>)
    returns (items: seq<T>)
    requires Claimed(s0, events, s, log, i) && i !in taken && p.Valid() && p.base.head == s.head
    requires p.base.tail == s.tail
    requires TakenOut(p.done, log, taken)
    requires firstIndex == Word(log[i].0) && count == log[i].1 && count < HALF
    modifies p`done, p`released, p`releasedNumbers, p`owner, p.index`win, p.index.Entries(), p.owner
    ensures p.Valid() && TakenOut(p.done, log, taken + {i})
    ensures 0 <= log[i].0 <= log[i].0 + count <= |p.history| && items == p.history[log[i].0..log[i].0 + count]
    ensures I.TakenTo(old(p.Now()), p.Now(), p.index.first, log[i].0, log[i].0 + count, I.BlockBehind(log[i].0, count))
  {
    ClaimReady(s0, events, s, log, i, taken, p.done);
    OneMoreTaken(p.done, log, taken, i, log[i].0, count);
    forall x: nat | log[i].0 <= x < log[i].0 + count ensures x !in p.done { assert InClaim(log, i, x); }
    items := p.TakeRun(firstIndex, count, log[i].0);
  }

  /** The same for an explicit producer. */
  method TakeExplicit<T>(p: E.ExplicitProducer<T>, firstIndex: nat, count: nat, ghost i: nat, ghost taken: set<nat>,
                         ghost s0: D.State, ghost events: seq<D.Action>, ghost s: D.State, ghost log: seq<(int, int)>)
    returns (items: seq<T>)
    requires Claimed(s0, events, s, log, i) && i !in taken && p.Valid() && p.base.head == s.head
    requires p.base.tail == s.tail
    requires TakenOut(p.done, log, taken)
    requires firstIndex == Word(log[i].0) && count == log[i].1 && count < HALF
    modifies p`done, p.Storage()
    ensures p.Valid() && TakenOut(p.done, log, taken + {i})
    ensures 0 <= log[i].0 <= log[i].0 + count <= |p.history| && items == p.history[log[i].0..log[i].0 + count]
  {
    ClaimReady(s0, events, s, log, i, taken, p.done);
    OneMoreTaken(p.done, log, taken, i, log[i].0, count);
    forall x: nat | log[i].0 <= x < log[i].0 + count ensures x !in p.done { assert InClaim(log, i, x); }
    items := p.TakeRun(firstIndex, count, log[i].0);
  }
}
