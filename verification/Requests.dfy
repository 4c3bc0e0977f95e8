/** What a whole scatter-gather request means: one flat copy between the disk and the runs. */
module Requests {
  import opened ScatterGather
  import opened Splicing

  /** The runs a list names, as it stands in memory. */
  function Runs(ram: seq<Byte>, list: nat, count: nat): (ds: seq<Run>)
    requires list + count * DESCRIPTOR <= |ram|
    ensures |ds| == count
    decreases count
  {
    if count == 0 then []
    else [RunOf(ram[list..list + DESCRIPTOR])] + Runs(ram, list + DESCRIPTOR, count - 1)
  }

  function Length(ds: seq<Run>): nat {
    if ds == [] then 0 else ds[0].len + Length(ds[1..])
  }

  predicate RunOk(d: Run, ram: nat) {
    0 < d.len <= MAX_SEGMENT && d.pa + d.len <= ram
  }

  ghost predicate RunsOk(ds: seq<Run>, ram: nat) {
    ds == [] || (RunOk(ds[0], ram) && RunsOk(ds[1..], ram))
  }

  /** The bytes of the runs, one run after the other. */
  function Gather(ram: seq<Byte>, ds: seq<Run>): (data: seq<Byte>)
    requires RunsOk(ds, |ram|)
    ensures |data| == Length(ds)
  {
    if ds == [] then [] else ram[ds[0].pa..ds[0].pa + ds[0].len] + Gather(ram, ds[1..])
  }

  /** Data dealt out over the runs in turn. */
  function Scatter(ram: seq<Byte>, ds: seq<Run>, data: seq<Byte>): (r: seq<Byte>)
    requires RunsOk(ds, |ram|) && |data| == Length(ds)
    ensures |r| == |ram|
    decreases |ds|
  {
    if ds == [] then ram
    else Scatter(Splice(ram, ds[0].pa, data[..ds[0].len]), ds[1..], data[ds[0].len..])
  }

  predicate Apart(d: Run, lo: nat, hi: nat) {
    d.pa + d.len <= lo || hi <= d.pa
  }

  /** No run touches the bytes from lo to hi. */
  ghost predicate AllApart(ds: seq<Run>, lo: nat, hi: nat) {
    ds == [] || (Apart(ds[0], lo, hi) && AllApart(ds[1..], lo, hi))
  }

  lemma {:induction false} RunsAlike(ram: seq<Byte>, ram': seq<Byte>, list: nat, count: nat)
    requires list + count * DESCRIPTOR <= |ram| == |ram'|
    requires ram[list..list + count * DESCRIPTOR] == ram'[list..list + count * DESCRIPTOR]
    ensures Runs(ram', list, count) == Runs(ram, list, count)
    decreases count
  {
    if count == 0 {
    } else {
      var (a, b) := (ram[list..list + count * DESCRIPTOR], ram'[list..list + count * DESCRIPTOR]);
      Sub(ram, list, list + count * DESCRIPTOR, 0, DESCRIPTOR);
      Sub(ram', list, list + count * DESCRIPTOR, 0, DESCRIPTOR);
      Sub(ram, list, list + count * DESCRIPTOR, DESCRIPTOR, count * DESCRIPTOR);
      Sub(ram', list, list + count * DESCRIPTOR, DESCRIPTOR, count * DESCRIPTOR);
      RunsAlike(ram, ram', list + DESCRIPTOR, count - 1);
    }
  }

  lemma Sub(s: seq<Byte>, a: nat, b: nat, c: nat, d: nat)
    requires a <= b <= |s| && c <= d <= b - a
    ensures s[a + c..a + d] == s[a..b][c..d]
  {
    var (l, r) := (s[a..b][c..d], s[a + c..a + d]);
    assert forall i :: 0 <= i < d - c ==> l[i] == r[i];
  }

  /** One descriptor that is in order moves its run. */
  lemma OneMoves(ram: seq<Byte>, disk: seq<Byte>, offset: nat, at: nat, write: bool, d: Run)
    requires at + DESCRIPTOR <= |ram| && d == RunOf(ram[at..at + DESCRIPTOR]) && RunOk(d, |ram|)
             && offset + d.len <= |disk|
    ensures var next := After(ram, disk, offset, d.pa, d.len, write);
            TransferOne(ram, disk, offset, at, write) == (Outcome(next.0, next.1, Ok), d.len)
  {
  }

  lemma RunsFirst(ram: seq<Byte>, list: nat, count: nat)
    requires count > 0 && list + count * DESCRIPTOR <= |ram|
    ensures var ds := Runs(ram, list, count);
            && ds[0] == RunOf(ram[list..list + DESCRIPTOR])
            && ds[1..] == Runs(ram, list + DESCRIPTOR, count - 1)
            && Length(ds) == ds[0].len + Length(ds[1..])
  {
  }

  /** The transfers of a fixed list of runs. */
  function RunAll(ram: seq<Byte>, disk: seq<Byte>, offset: nat, ds: seq<Run>, write: bool): (seq<Byte>, seq<Byte>)
    requires RunsOk(ds, |ram|) && offset + Length(ds) <= |disk|
    decreases |ds|
  {
    if ds == [] then (ram, disk)
    else
      var next := After(ram, disk, offset, ds[0].pa, ds[0].len, write);
      RunAll(next.0, next.1, offset + ds[0].len, ds[1..], write)
  }

  /** The rest of the list still names the same runs after the first transfer. */
  lemma RestStays(ram: seq<Byte>, disk: seq<Byte>, offset: nat, list: nat, count: nat, write: bool, d: Run)
    requires count > 0 && list + count * DESCRIPTOR <= |ram| && RunOk(d, |ram|) && offset + d.len <= |disk|
    requires write || Apart(d, list, list + count * DESCRIPTOR)
    ensures Runs(After(ram, disk, offset, d.pa, d.len, write).0, list + DESCRIPTOR, count - 1)
            == Runs(ram, list + DESCRIPTOR, count - 1)
  {
    if !write {
      var data := disk[offset..offset + d.len];
      SpliceApart(ram, d.pa, data, list + DESCRIPTOR, list + count * DESCRIPTOR);
      RunsAlike(ram, Splice(ram, d.pa, data), list + DESCRIPTOR, count - 1);
    }
  }

  /** The list outlives the request, or is only read. */
  ghost predicate Safe(write: bool, ds: seq<Run>, lo: nat, hi: nat) {
    write || AllApart(ds, lo, hi)
  }

  lemma SafeRest(write: bool, ds: seq<Run>, lo: nat, hi: nat)
    requires ds != [] && lo + DESCRIPTOR <= hi && Safe(write, ds, lo, hi)
    ensures (write || Apart(ds[0], lo, hi)) && Safe(write, ds[1..], lo + DESCRIPTOR, hi)
  {
    if !write {
      AllApartLess(ds[1..], lo, hi);
    }
  }

  lemma {:induction false} AllApartLess(ds: seq<Run>, lo: nat, hi: nat)
    requires lo + DESCRIPTOR <= hi && AllApart(ds, lo, hi)
    ensures AllApart(ds, lo + DESCRIPTOR, hi)
  {
    if ds == [] {
    } else {
      AllApartLess(ds[1..], lo, hi);
    }
  }

  ghost predicate Listed(ram: seq<Byte>, list: nat, count: nat, end: nat, write: bool, ds: seq<Run>) {
    end == list + count * DESCRIPTOR <= |ram| && ds == Runs(ram, list, count) && RunsOk(ds, |ram|)
        && Safe(write, ds, list, end)
  }

  lemma ListedRest(ram: seq<Byte>, disk: seq<Byte>, offset: nat, list: nat, count: nat, end: nat, write: bool,
                   ds: seq<Run>)
    requires count > 0 && Listed(ram, list, count, end, write, ds) && offset + Length(ds) <= |disk|
    ensures RunOk(ds[0], |ram|) && offset + ds[0].len <= |disk| && ds[0] == RunOf(ram[list..list + DESCRIPTOR])
    ensures offset + ds[0].len + Length(ds[1..]) <= |disk|
    ensures Listed(After(ram, disk, offset, ds[0].pa, ds[0].len, write).0, list + DESCRIPTOR, count - 1, end, write,
                   ds[1..])
  {
    RunsFirst(ram, list, count);
    SafeRest(write, ds, list, end);
    RestStays(ram, disk, offset, list, count, write, ds[0]);
  }

  /** Taking the runs of ds from here on comes to fixed. */
  ghost predicate RunsLead(ram: seq<Byte>, disk: seq<Byte>, offset: nat, ds: seq<Run>, write: bool,
                           fixed: (seq<Byte>, seq<Byte>))
    decreases |ds|
  {
    if ds == [] then fixed == (ram, disk)
    else
      var d := ds[0];
      && RunOk(d, |ram|) && offset + d.len <= |disk|
      && var next := After(ram, disk, offset, d.pa, d.len, write);
         RunsLead(next.0, next.1, offset + d.len, ds[1..], write, fixed)
  }

  lemma {:induction false} RunsLeadAll(ram: seq<Byte>, disk: seq<Byte>, offset: nat, ds: seq<Run>, write: bool)
    requires RunsOk(ds, |ram|) && offset + Length(ds) <= |disk|
    ensures RunsLead(ram, disk, offset, ds, write, RunAll(ram, disk, offset, ds, write))
    decreases |ds|
  {
    if ds == [] {
    } else {
      var next := After(ram, disk, offset, ds[0].pa, ds[0].len, write);
      RunsLeadAll(next.0, next.1, offset + ds[0].len, ds[1..], write);
    }
  }

  /** The first descriptor taken, by the list in memory and by the list as it stood. */
  lemma BothLead(ram: seq<Byte>, disk: seq<Byte>, offset: nat, list: nat, count: nat, write: bool, ds: seq<Run>,
                 out: Outcome, fixed: (seq<Byte>, seq<Byte>), d: Run, next: (seq<Byte>, seq<Byte>),
                 ram1: seq<Byte>, disk1: seq<Byte>, offset1: nat, rest: seq<Run>)
    requires ds != [] && next == (ram1, disk1) && offset1 == offset + d.len && rest == ds[1..]
    requires count > 0 && list + DESCRIPTOR <= |ram| && d == RunOf(ram[list..list + DESCRIPTOR])
    requires RunOk(d, |ram|) && offset + d.len <= |disk| && next == After(ram, disk, offset, d.pa, d.len, write)
    requires Leads(ram, disk, offset, list, count, write, out)
    requires d == ds[0] && RunsLead(ram, disk, offset, ds, write, fixed)
    ensures Leads(ram1, disk1, offset1, list + DESCRIPTOR, count - 1, write, out)
    ensures RunsLead(ram1, disk1, offset1, rest, write, fixed)
  {
    OneMoves(ram, disk, offset, list, write, d);
  }

  /** What is left of a request, by the list in memory and by the list as it stood. */
  ghost predicate Left(ram: seq<Byte>, disk: seq<Byte>, offset: nat, list: nat, count: nat, end: nat, write: bool,
                       ds: seq<Run>, out: Outcome, fixed: (seq<Byte>, seq<Byte>))
  {
    && Listed(ram, list, count, end, write, ds) && offset + Length(ds) <= |disk|
    && Leads(ram, disk, offset, list, count, write, out) && RunsLead(ram, disk, offset, ds, write, fixed)
  }

  lemma LeftNext(ram: seq<Byte>, disk: seq<Byte>, offset: nat, list: nat, count: nat, end: nat, write: bool,
                 ds: seq<Run>, out: Outcome, fixed: (seq<Byte>, seq<Byte>))
    returns (ram1: seq<Byte>, disk1: seq<Byte>, offset1: nat, list1: nat, count1: nat, rest: seq<Run>)
    requires count > 0 && Left(ram, disk, offset, list, count, end, write, ds, out, fixed)
    ensures count1 < count && Left(ram1, disk1, offset1, list1, count1, end, write, rest, out, fixed)
  {
    ListedRest(ram, disk, offset, list, count, end, write, ds);
    var d := ds[0];
    var next := After(ram, disk, offset, d.pa, d.len, write);
    ram1, disk1, offset1, list1, count1, rest := next.0, next.1, offset + d.len, list + DESCRIPTOR, count - 1, ds[1..];
    BothLead(ram, disk, offset, list, count, write, ds, out, fixed, d, next, ram1, disk1, offset1, rest);
  }

  lemma {:induction false} ListTaken(ram: seq<Byte>, disk: seq<Byte>, offset: nat, list: nat, count: nat, end: nat,
                                     write: bool, ds: seq<Run>, out: Outcome, fixed: (seq<Byte>, seq<Byte>))
    requires Left(ram, disk, offset, list, count, end, write, ds, out, fixed)
    ensures out == Outcome(fixed.0, fixed.1, Ok)
    decreases count
  {
    if count == 0 {
    } else {
      var ram1, disk1, offset1, list1, count1, rest :=
        LeftNext(ram, disk, offset, list, count, end, write, ds, out, fixed);
      ListTaken(ram1, disk1, offset1, list1, count1, end, write, rest, out, fixed);
    }
  }

  /** Reading the list as the request goes along comes to taking it as it stood. */
  lemma ListIsFixed(ram: seq<Byte>, disk: seq<Byte>, offset: nat, list: nat, count: nat, end: nat, write: bool,
                    ds: seq<Run>)
    requires Listed(ram, list, count, end, write, ds) && offset + Length(ds) <= |disk|
    ensures var (ram1, disk1) := RunAll(ram, disk, offset, ds, write);
            TransferAll(ram, disk, offset, list, count, write) == Outcome(ram1, disk1, Ok)
  {
    LeadsAll(ram, disk, offset, list, count, write);
    RunsLeadAll(ram, disk, offset, ds, write);
    ListTaken(ram, disk, offset, list, count, end, write, ds,
              TransferAll(ram, disk, offset, list, count, write), RunAll(ram, disk, offset, ds, write));
  }

  lemma {:induction false} WritesJoin(ram: seq<Byte>, disk: seq<Byte>, offset: nat, ds: seq<Run>)
    requires RunsOk(ds, |ram|) && offset + Length(ds) <= |disk|
    ensures RunAll(ram, disk, offset, ds, true) == (ram, Splice(disk, offset, Gather(ram, ds)))
    decreases |ds|
  {
    if ds == [] {
      SpliceEmpty(disk, offset);
    } else {
      var (d, rest) := (ds[0], ds[1..]);
      var part := ram[d.pa..d.pa + d.len];
      WritesJoin(ram, Splice(disk, offset, part), offset + d.len, rest);
      SpliceSplice(disk, offset, part, Gather(ram, rest));
    }
  }

  lemma {:induction false} ReadsJoin(ram: seq<Byte>, disk: seq<Byte>, offset: nat, ds: seq<Run>)
    requires RunsOk(ds, |ram|) && offset + Length(ds) <= |disk|
    ensures RunAll(ram, disk, offset, ds, false) == (Scatter(ram, ds, disk[offset..offset + Length(ds)]), disk)
    decreases |ds|
  {
    if ds == [] {
    } else {
      var (d, rest, n) := (ds[0], ds[1..], Length(ds));
      var data := disk[offset..offset + n];
      Sub(disk, offset, offset + n, 0, d.len);
      Sub(disk, offset, offset + n, d.len, n);
      assert data[..d.len] == disk[offset..offset + d.len];
      assert data[d.len..] == disk[offset + d.len..offset + n];
      ReadsJoin(Splice(ram, d.pa, data[..d.len]), disk, offset + d.len, rest);
    }
  }

  /** A write is one flat copy of the gathered runs to the disk; memory stays. */
  lemma WriteIsFlat(ram: seq<Byte>, disk: seq<Byte>, offset: nat, list: nat, count: nat)
    requires list + count * DESCRIPTOR <= |ram|
    requires RunsOk(Runs(ram, list, count), |ram|) && offset + Length(Runs(ram, list, count)) <= |disk|
    ensures TransferAll(ram, disk, offset, list, count, true)
            == Outcome(ram, Splice(disk, offset, Gather(ram, Runs(ram, list, count))), Ok)
  {
    var ds := Runs(ram, list, count);
    ListIsFixed(ram, disk, offset, list, count, list + count * DESCRIPTOR, true, ds);
    WritesJoin(ram, disk, offset, ds);
  }

  /** A read is one flat copy of the disk dealt out over the runs, if no run touches the list. */
  lemma ReadIsFlat(ram: seq<Byte>, disk: seq<Byte>, offset: nat, list: nat, count: nat)
    requires list + count * DESCRIPTOR <= |ram|
    requires RunsOk(Runs(ram, list, count), |ram|) && offset + Length(Runs(ram, list, count)) <= |disk|
    requires AllApart(Runs(ram, list, count), list, list + count * DESCRIPTOR)
    ensures var ds := Runs(ram, list, count);
            TransferAll(ram, disk, offset, list, count, false)
            == Outcome(Scatter(ram, ds, disk[offset..offset + Length(ds)]), disk, Ok)
  {
    var ds := Runs(ram, list, count);
    ListIsFixed(ram, disk, offset, list, count, list + count * DESCRIPTOR, false, ds);
    ReadsJoin(ram, disk, offset, ds);
  }

  /** Scattering changes nothing outside the runs. */
  lemma {:induction false} ScatterElsewhere(ram: seq<Byte>, ds: seq<Run>, data: seq<Byte>, lo: nat, hi: nat)
    requires RunsOk(ds, |ram|) && |data| == Length(ds) && lo <= hi <= |ram| && AllApart(ds, lo, hi)
    ensures Scatter(ram, ds, data)[lo..hi] == ram[lo..hi]
    decreases |ds|
  {
    if ds == [] {
    } else {
      var (d, rest) := (ds[0], ds[1..]);
      SpliceApart(ram, d.pa, data[..d.len], lo, hi);
      ScatterElsewhere(Splice(ram, d.pa, data[..d.len]), rest, data[d.len..], lo, hi);
    }
  }

  /** Runs that do not meet. */
  ghost predicate Disjoint(ds: seq<Run>) {
    ds == [] || (AllApart(ds[1..], ds[0].pa, ds[0].pa + ds[0].len) && Disjoint(ds[1..]))
  }

  /** Gathering disjoint runs gets back what was scattered over them. */
  lemma {:induction false} GatherScatter(ram: seq<Byte>, ds: seq<Run>, data: seq<Byte>)
    requires RunsOk(ds, |ram|) && |data| == Length(ds) && Disjoint(ds)
    ensures Gather(Scatter(ram, ds, data), ds) == data
    decreases |ds|
  {
    if ds == [] {
    } else {
      var (d, rest) := (ds[0], ds[1..]);
      var ram1 := Splice(ram, d.pa, data[..d.len]);
      GatherScatter(ram1, rest, data[d.len..]);
      assert AllApart(rest, d.pa, d.pa + d.len);
      ScatterElsewhere(ram1, rest, data[d.len..], d.pa, d.pa + d.len);
      SpliceThere(ram, d.pa, data[..d.len]);
      assert data == data[..d.len] + data[d.len..];
    }
  }

  /** What a write stores, a read of the same list into memory brings back. */
  lemma WriteThenRead(ram: seq<Byte>, disk: seq<Byte>, offset: nat, list: nat, count: nat, later: seq<Byte>)
    requires list + count * DESCRIPTOR <= |ram| == |later|
    requires later[list..list + count * DESCRIPTOR] == ram[list..list + count * DESCRIPTOR]
    requires var ds := Runs(ram, list, count);
             && RunsOk(ds, |ram|) && offset + Length(ds) <= |disk|
             && AllApart(ds, list, list + count * DESCRIPTOR) && Disjoint(ds)
    ensures var stored := TransferAll(ram, disk, offset, list, count, true).disk;
            var back := TransferAll(later, stored, offset, list, count, false);
            back.rc == Ok && Gather(back.ram, Runs(ram, list, count)) == Gather(ram, Runs(ram, list, count))
  {
    var ds := Runs(ram, list, count);
    var w := TransferAll(ram, disk, offset, list, count, true);
    WriteIsFlat(ram, disk, offset, list, count);
    RunsAlike(ram, later, list, count);
    var r := TransferAll(later, w.disk, offset, list, count, false);
    ReadIsFlat(later, w.disk, offset, list, count);
    SpliceThere(disk, offset, Gather(ram, ds));
    GatherScatter(later, ds, Gather(ram, ds));
  }
}
