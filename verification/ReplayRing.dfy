/** secure_design.c: the ring of the last eight accepted handshake tuples. */
module ReplayRing {
  import opened Bytes

  datatype Handshake = Handshake(requesterNonce: nat, targetNonce: nat, group: nat, op: byte)

  datatype Entry = Entry(tuple: Handshake, valid: bool)

  // ---- what the ring stands for ----

  function Window(accepted: seq<Handshake>): seq<Handshake> {
    if |accepted| <= 8 then accepted else accepted[|accepted| - 8..]
  }

  function Accept(accepted: seq<Handshake>, t: Handshake): seq<Handshake> {
    if t in Window(accepted) then accepted else accepted + [t]
  }

  /** The tuples accepted over a sequence of calls since the last clear. */
  function Accepted(calls: seq<Handshake>): seq<Handshake> {
    if calls == [] then [] else Accept(Accepted(calls[..|calls| - 1]), calls[|calls| - 1])
  }

  /** Any eight consecutive accepted tuples are pairwise distinct, however often the ring has
      wrapped around. */
  lemma {:induction false} WindowDistinct(calls: seq<Handshake>, i: nat, j: nat)
    requires i < j < |Accepted(calls)| && j - i < 8
    ensures Accepted(calls)[i] != Accepted(calls)[j]
    decreases |calls|
  {
    if calls != [] {
      var before, t := Accepted(calls[..|calls| - 1]), calls[|calls| - 1];
      if j < |before| {
        WindowDistinct(calls[..|calls| - 1], i, j);
      } else {
        assert j == |before| && t !in Window(before);
        var k := if |before| <= 8 then i else i - (|before| - 8);
        assert Window(before)[k] == before[i];
      }
    }
  }

  /** A replay within the window changes nothing: the calls that were rejected may be dropped. */
  lemma {:induction false} AcceptedIsFixed(calls: seq<Handshake>)
    ensures Accepted(Accepted(calls)) == Accepted(calls)
    decreases |calls|
  {
    if calls != [] {
      var before, t := Accepted(calls[..|calls| - 1]), calls[|calls| - 1];
      AcceptedIsFixed(calls[..|calls| - 1]);
      if t !in Window(before) {
        assert Accepted(calls) == before + [t];
        assert (before + [t])[..|before + [t]| - 1] == before;
      }
    }
  }

  // ---- the code ----

  /** The last accepted index that went into slot i, after n of them. */
  function LastAt(n: nat, i: nat): (k: nat)
    requires i < 8 && i < n
    ensures k < n <= k + 8 && k % 8 == i
  {
    n - 1 - (n - 1 - i) % 8
  }

  /** Each slot holds the last accepted tuple that went into it. */
  ghost predicate Holds(accepted: seq<Handshake>, slots: seq<Entry>) {
    && |slots| == 8
    && forall i :: 0 <= i < 8 ==>
         if i < |accepted| then slots[i] == Entry(accepted[LastAt(|accepted|, i)], true) else !slots[i].valid
  }

  class Ring {
    const cache: array<Entry>
    var next: nat
    ghost var calls: seq<Handshake>

    ghost predicate Valid()
      reads this, cache
    {
      && cache.Length == 8 && next == |Accepted(calls)| % 8
      && Holds(Accepted(calls), cache[..])
    }

    constructor ()
      ensures Valid() && calls == [] && fresh(cache)
    {
      cache := new Entry[8](_ => Entry(Handshake(0, 0, 0, 0), false));
      next := 0;
      calls := [];
    }

    /** security_secure_uart_clear_replay_cache */
    method Clear()
      requires Valid()
      modifies this, cache
      ensures Valid() && calls == []
    {
      forall i | 0 <= i < 8 {
        cache[i] := Entry(Handshake(0, 0, 0, 0), false);
      }
      next := 0;
      calls := [];
    }

    /** security_secure_uart_check_and_update_replay: a tuple is refused if and only if it is among
        the last eight accepted ones, and a refusal changes nothing. */
    method CheckAndUpdate(t: Handshake) returns (ok: bool)
      requires Valid()
      modifies this, cache
      ensures Valid() && calls == old(calls) + [t]
      ensures ok <==> t !in Window(Accepted(old(calls)))
      ensures Accepted(calls) == if ok then Accepted(old(calls)) + [t] else Accepted(old(calls))
      ensures !ok ==> cache[..] == old(cache[..]) && next == old(next)
    {
      hide Holds, Window;
      ghost var accepted, before := Accepted(calls), cache[..];
      OneMoreCall(calls, t);
      var i := 0;
      while i < 8
        invariant 0 <= i <= 8
        invariant forall k :: 0 <= k < i ==> before[k] != Entry(t, true)
      {
        if cache[i].valid && cache[i].tuple == t {
          SlotsAreWindow(accepted, before, t);
          calls := calls + [t];
          return false;
        }
        i := i + 1;
      }
      SlotsAreWindow(accepted, before, t);
      SlotsAfter(accepted, t, before);
      cache[next] := Entry(t, true);
      next := (next + 1) % 8;
      calls := calls + [t];
      assert cache[..] == before[|accepted| % 8 := Entry(t, true)];
      return true;
    }
  }

  lemma OneMoreCall(calls: seq<Handshake>, t: Handshake)
    ensures Accepted(calls + [t]) == Accept(Accepted(calls), t)
  {
    assert (calls + [t])[..|calls + [t]| - 1] == calls;
  }

  /** The valid slots hold exactly the window. */
  lemma SlotsAreWindow(accepted: seq<Handshake>, slots: seq<Entry>, t: Handshake)
    requires Holds(accepted, slots)
    ensures t in Window(accepted) <==> exists i :: 0 <= i < 8 && slots[i] == Entry(t, true)
  {
    var n := |accepted|;
    var from := if n <= 8 then 0 else n - 8;
    if t in Window(accepted) {
      var k :| 0 <= k < |Window(accepted)| && Window(accepted)[k] == t;
      SlotOfLast(n, from + k);
      assert slots[(from + k) % 8] == Entry(t, true);
    }
    if i :| 0 <= i < 8 && slots[i] == Entry(t, true) {
      var k := LastAt(n, i);
      assert Window(accepted)[k - from] == t;
    }
  }

  lemma SlotOfLast(n: nat, k: nat)
    requires k < n <= k + 8
    ensures k % 8 < n && LastAt(n, k % 8) == k
  {
  }

  lemma SlotsAfter(accepted: seq<Handshake>, t: Handshake, before: seq<Entry>)
    requires Holds(accepted, before)
    ensures |before| == 8 && Holds(accepted + [t], before[|accepted| % 8 := Entry(t, true)])
  {
    hide LastAt;
    var n, after := |accepted|, before[|accepted| % 8 := Entry(t, true)];
    forall i | 0 <= i < 8 && i < n + 1
      ensures after[i] == Entry((accepted + [t])[LastAt(n + 1, i)], true)
    {
      LastMoves(n, i);
    }
  }

  lemma LastMoves(n: nat, i: nat)
    requires i < 8 && i <= n
    ensures LastAt(n + 1, i) == if i == n % 8 then n else LastAt(n, i)
  {
    SlotOfLast(n + 1, if i == n % 8 then n else LastAt(n, i));
  }
}
