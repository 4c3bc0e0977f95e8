/** The completion ring in guest memory: the host posts one record, the guest drains all. */
module CobdRing {
  import opened CobdPool
  import opened CobdProtocol
  import opened Words

  /** n records from an index on, going round. */
  function Window(slots: seq<Rec>, tail: nat, n: nat): (w: seq<Rec>)
    requires |slots| == SLOTS
    ensures |w| == n
  {
    seq(n, i requires 0 <= i < n => slots[(tail + i) % SLOTS])
  }

  predicate Started(c: Rec, inFlight: seq<set<nat>>)
    requires |inFlight| == UNITS
  {
    c.unit < UNITS && c.tag < DEPTH && c.tag in inFlight[c.unit]
  }

  /** Records ended in order after those in acc, each only if it names a request still started. */
  function Reap(recs: seq<Rec>, inFlight: seq<set<nat>>, acc: seq<Rec>): (r: (seq<Rec>, seq<set<nat>>))
    requires |inFlight| == UNITS
    ensures |r.1| == UNITS
    decreases |recs|
  {
    if recs == [] then (acc, inFlight)
    else
      var c := recs[0];
      if Started(c, inFlight) then Reap(recs[1..], inFlight[c.unit := inFlight[c.unit] - {c.tag}], acc + [c])
      else Reap(recs[1..], inFlight, acc)
  }

  lemma ReapNext(c: Rec, rest: seq<Rec>, inFlight: seq<set<nat>>, acc: seq<Rec>)
    requires |inFlight| == UNITS
    ensures Reap([c] + rest, inFlight, acc) ==
            if Started(c, inFlight) then Reap(rest, inFlight[c.unit := inFlight[c.unit] - {c.tag}], acc + [c])
            else Reap(rest, inFlight, acc)
  {
    assert ([c] + rest)[1..] == rest;
  }

  /** Different requests, none of them started any more. */
  ghost predicate EndedOnce(ended: seq<Rec>, inFlight: seq<set<nat>>)
    requires |inFlight| == UNITS
  {
    && (forall i :: 0 <= i < |ended| ==> ended[i].unit < UNITS && ended[i].tag !in inFlight[ended[i].unit])
    && forall i, j :: 0 <= i < j < |ended| ==> ended[i].unit != ended[j].unit || ended[i].tag != ended[j].tag
  }

  /** No request is ended twice, whatever the ring holds. */
  lemma {:induction false} ReapOnce(recs: seq<Rec>, inFlight: seq<set<nat>>, acc: seq<Rec>)
    requires |inFlight| == UNITS && EndedOnce(acc, inFlight)
    ensures var r := Reap(recs, inFlight, acc); EndedOnce(r.0, r.1)
    decreases |recs|
  {
    if recs == [] {
    } else {
      var c := recs[0];
      if Started(c, inFlight) {
        ReapOnce(recs[1..], inFlight[c.unit := inFlight[c.unit] - {c.tag}], acc + [c]);
      } else {
        ReapOnce(recs[1..], inFlight, acc);
      }
    }
  }

  lemma WindowMore(slots: seq<Rec>, tail: nat, n: nat, r: Rec)
    requires |slots| == SLOTS && n < SLOTS
    ensures Window(slots[(tail + n) % SLOTS := r], tail, n + 1) == Window(slots, tail, n) + [r]
  {
    var (a, b) := (Window(slots[(tail + n) % SLOTS := r], tail, n + 1), Window(slots, tail, n) + [r]);
    forall i | 0 <= i < n + 1 ensures a[i] == b[i] {
      if i < n {
        SlotsApart(tail + i, tail + n);
      }
    }
  }

  lemma WindowNext(slots: seq<Rec>, tail: nat, n: nat)
    requires |slots| == SLOTS && n > 0
    ensures Window(slots, tail, n) == [slots[tail % SLOTS]] + Window(slots, tail + 1, n - 1)
  {
    var (a, b) := (Window(slots, tail, n), [slots[tail % SLOTS]] + Window(slots, tail + 1, n - 1));
    forall i | 0 <= i < n ensures a[i] == b[i] {
      assert i > 0 ==> tail + 1 + (i - 1) == tail + i;
    }
  }

  lemma WindowWraps(slots: seq<Rec>, tail: nat, n: nat)
    requires |slots| == SLOTS
    ensures Window(slots, tail % WORD, n) == Window(slots, tail, n)
  {
    var (a, b) := (Window(slots, tail % WORD, n), Window(slots, tail, n));
    forall i | 0 <= i < n ensures a[i] == b[i] {
      SlotShift(tail, i);
    }
  }

  lemma SlotShift(tail: nat, i: nat)
    ensures (tail % WORD + i) % SLOTS == (tail + i) % SLOTS
  {
    assert tail == tail / WORD * WORD + tail % WORD;
  }

  class Ring {
    var slots: seq<Rec>
    var head: nat
    var tail: nat
    var attached: bool
    var inFlight: seq<set<nat>>

    ghost predicate Valid()
      reads this
    {
      |slots| == SLOTS && head < WORD && tail < WORD && |inFlight| == UNITS
    }

    /** The records posted and not yet drained. */
    ghost function Waiting(): seq<Rec>
      requires Valid()
      reads this
    {
      Window(slots, tail, Sub32(head, tail))
    }

    /** Posts a record behind those waiting, unless the ring is full or the guest gone. */
    method Complete(r: Rec) returns (posted: bool)
      requires Valid()
      modifies `slots, `head
      ensures Valid() && posted == (attached && Sub32(old(head), tail) < SLOTS)
      ensures if posted then Waiting() == old(Waiting()) + [r] else slots == old(slots) && head == old(head)
      ensures posted ==> slots == old(slots)[old(head) % SLOTS := r] && head == (old(head) + 1) % WORD
    {
      if !attached {
        return false;
      }
      if Sub32(head, tail) >= SLOTS {
        return false;
      }
      Posted(slots, head, tail, r);
      slots := slots[head % SLOTS := r];
      head := (head + 1) % WORD;
      return true;
    }

    /** Ends what is waiting, in order, and leaves nothing; a gap wider than the ring is only
        resynchronised. */
    method Drain() returns (ended: seq<Rec>)
      requires Valid()
      modifies `tail, `inFlight
      ensures Valid() && tail == head
      ensures Sub32(head, old(tail)) <= SLOTS ==> (ended, inFlight) == Reap(old(Waiting()), old(inFlight), [])
      ensures Sub32(head, old(tail)) > SLOTS ==> ended == [] && inFlight == old(inFlight)
    {
      ended := [];
      if Sub32(head, tail) > SLOTS {
        tail := head;
        return;
      }
      ghost var all := Reap(Waiting(), inFlight, []);
      var t: nat := tail;
      while t != head
        invariant Valid() && t < WORD && tail == old(tail)
        invariant Reap(Window(slots, t, Sub32(head, t)), inFlight, ended) == all
        decreases Sub32(head, t)
      {
        Drained(slots, head, t);
        var c := slots[t % SLOTS];
        t := (t + 1) % WORD;
        ReapNext(c, Window(slots, t, Sub32(head, t)), inFlight, ended);
        if c.unit < UNITS && c.tag < DEPTH && c.tag in inFlight[c.unit] {
          inFlight := inFlight[c.unit := inFlight[c.unit] - {c.tag}];
          ended := ended + [c];
        }
      }
      tail := t;
    }
  }

  lemma Posted(slots: seq<Rec>, head: nat, tail: nat, r: Rec)
    requires |slots| == SLOTS && head < WORD && tail < WORD && Sub32(head, tail) < SLOTS
    ensures Sub32((head + 1) % WORD, tail) == Sub32(head, tail) + 1
    ensures Window(slots[head % SLOTS := r], tail, Sub32(head, tail) + 1)
            == Window(slots, tail, Sub32(head, tail)) + [r]
  {
    var n := Sub32(head, tail);
    assert (tail + n) % WORD == head;
    SlotOf(tail + n);
    WindowMore(slots, tail, n, r);
  }

  lemma Drained(slots: seq<Rec>, head: nat, t: nat)
    requires |slots| == SLOTS && head < WORD && t < WORD && t != head
    ensures Sub32(head, t) > 0 && Sub32(head, (t + 1) % WORD) == Sub32(head, t) - 1
    ensures Window(slots, t, Sub32(head, t)) == [slots[t % SLOTS]] + Window(slots, (t + 1) % WORD, Sub32(head, t) - 1)
  {
    WindowNext(slots, t, Sub32(head, t));
    WindowWraps(slots, t + 1, Sub32(head, t) - 1);
  }
}
