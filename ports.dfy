/**
 Resource offers and the port-picking policy. An offer is a list of named
 resources; only resources named "ports" are read, and each of their ranges
 contributes the ports begin, begin + 1, ..., end - 1 (the end is exclusive).
 The candidates are scanned resource by resource, range by range, in
 ascending order within a range, and the first port not yet assigned wins.
 */
module Ports {

  /** A range of a ranges-typed resource; Mesos carries both bounds as unsigned integers. */
  datatype PortRange = PortRange(begin: nat, end: nat)

  /** A named resource of an offer with its ranges (empty for scalar or set resources). */
  datatype Resource = Resource(name: string, ranges: seq<PortRange>)

  /** A resource offer, reduced to its list of resources. */
  type Offer = seq<Resource>

  /** The only resource name the port picker reads. */
  const PortsName: string := "ports"

  /** The value returned when no port could be picked. */
  const NoPort: int := -1

  /** True iff `p` lies in some range of some "ports" resource of `offer`. */
  predicate Offered(offer: Offer, p: int)
  {
    exists i, j :: 0 <= i < |offer| && offer[i].name == PortsName &&
      0 <= j < |offer[i].ranges| && offer[i].ranges[j].begin <= p < offer[i].ranges[j].end
  }

  /** The ports of one range, ascending. */
  function RangePorts(r: PortRange): seq<nat>
    decreases r.end - r.begin
  {
    if r.begin < r.end then [r.begin] + RangePorts(PortRange(r.begin + 1, r.end)) else []
  }

  /** A range holds `end - begin` ports, the k-th being `begin + k`; an inverted range holds none. */
  lemma {:induction false} RangePortsAt(r: PortRange)
    ensures |RangePorts(r)| == if r.begin < r.end then r.end - r.begin else 0
    ensures forall k :: 0 <= k < |RangePorts(r)| ==> RangePorts(r)[k] == r.begin + k
    decreases r.end - r.begin
  {
    if r.begin < r.end {
      RangePortsAt(PortRange(r.begin + 1, r.end));
    }
  }

  /** The ports of a list of ranges, in scan order. */
  function RangesPorts(rs: seq<PortRange>): seq<nat>
  {
    if rs == [] then [] else RangePorts(rs[0]) + RangesPorts(rs[1..])
  }

  /** A port is scanned in a list of ranges exactly when some range of the list holds it. */
  lemma {:induction false} RangesPortsMembers(rs: seq<PortRange>)
    ensures forall p: int :: p in RangesPorts(rs) <==> exists j :: 0 <= j < |rs| && rs[j].begin <= p < rs[j].end
  {
    if rs != [] {
      RangesPortsMembers(rs[1..]);
      RangePortsAt(rs[0]);
      forall p: int | rs[0].begin <= p < rs[0].end ensures p in RangePorts(rs[0]) {
        assert RangePorts(rs[0])[p - rs[0].begin] == p;
      }
      assert forall j :: 0 <= j < |rs| - 1 ==> rs[1..][j] == rs[j + 1];
    }
  }

  /** The ports a resource contributes: its ranges if it is named "ports", none otherwise. */
  function ResourcePorts(r: Resource): seq<nat>
  {
    if r.name == PortsName then RangesPorts(r.ranges) else []
  }

  /** Every candidate port of an offer, in scan order. */
  function Candidates(offer: Offer): seq<nat>
  {
    if offer == [] then [] else ResourcePorts(offer[0]) + Candidates(offer[1..])
  }

  /** The candidates of an offer are exactly the ports it offers under "ports". */
  lemma {:induction false} CandidatesOffered(offer: Offer)
    ensures forall p: int :: p in Candidates(offer) <==> Offered(offer, p)
  {
    if offer != [] {
      var first, rest := offer[0], offer[1..];
      CandidatesOffered(rest);
      RangesPortsMembers(first.ranges);
      forall p: int | p in Candidates(offer) ensures Offered(offer, p) {
        if p in Candidates(rest) {
          var i, j :| 0 <= i < |rest| && rest[i].name == PortsName &&
            0 <= j < |rest[i].ranges| && rest[i].ranges[j].begin <= p < rest[i].ranges[j].end;
          assert rest[i] == offer[i + 1];
        } else {
          assert p in ResourcePorts(first);
          var j :| 0 <= j < |first.ranges| && first.ranges[j].begin <= p < first.ranges[j].end;
        }
      }
      forall p: int | Offered(offer, p) ensures p in Candidates(offer) {
        var i, j :| 0 <= i < |offer| && offer[i].name == PortsName &&
          0 <= j < |offer[i].ranges| && offer[i].ranges[j].begin <= p < offer[i].ranges[j].end;
        if i > 0 {
          assert rest[i - 1] == offer[i];
          assert Offered(rest, p);
        } else {
          assert p in RangesPorts(first.ranges);
        }
      }
    }
  }

  /**
   The position of the first candidate of `c` not in `used`, or `|c|` when
   every candidate is used.
   */
  function FirstFree(c: seq<nat>, used: set<int>): (k: nat)
    ensures k <= |c|
    ensures forall j :: 0 <= j < k ==> c[j] in used
    ensures k < |c| ==> c[k] !in used
  {
    if c == [] then 0
    else if c[0] !in used then 0
    else 1 + FirstFree(c[1..], used)
  }

  /** A free candidate preceded only by used ones is the first free one. */
  lemma FirstFreeAt(c: seq<nat>, k: nat, used: set<int>)
    requires k < |c| && c[k] !in used
    requires forall j :: 0 <= j < k ==> c[j] in used
    ensures FirstFree(c, used) == k
  {
  }

  /** True iff `p` occurs in `c` at a position before which every candidate is in `used`. */
  predicate FreeAfterUsedPrefix(c: seq<nat>, used: set<int>, p: int)
  {
    exists k :: 0 <= k < |c| && c[k] == p && forall j :: 0 <= j < k ==> c[j] in used
  }

  /** The first candidate of `c` not in `used`, or `NoPort` when there is none. */
  function FirstUnused(c: seq<nat>, used: set<int>): int
  {
    var k := FirstFree(c, used);
    if k < |c| then c[k] else NoPort
  }

  /**
   The first unused candidate is a candidate not in use, preceded only by
   candidates in use; there is none exactly when every candidate is in use.
   */
  lemma FirstUnusedSpec(c: seq<nat>, used: set<int>)
    ensures FirstUnused(c, used) == NoPort <==> forall q :: q in c ==> q in used
    ensures FirstUnused(c, used) != NoPort ==> FirstUnused(c, used) !in used
    ensures FirstUnused(c, used) != NoPort ==> FreeAfterUsedPrefix(c, used, FirstUnused(c, used))
  {
    var k := FirstFree(c, used);
    if k < |c| {
      assert c[k] in c;
    }
  }

  /**
   Scanning two candidate lists one after the other: the second is only
   reached when every candidate of the first is in use.
   */
  lemma {:induction false} FirstUnusedAppend(a: seq<nat>, b: seq<nat>, used: set<int>)
    ensures FirstUnused(a + b, used) ==
      if FirstUnused(a, used) != NoPort then FirstUnused(a, used) else FirstUnused(b, used)
  {
    if a == [] {
      assert a + b == b;
    } else if a[0] in used {
      FirstUnusedAppend(a[1..], b, used);
      assert (a + b)[1..] == a[1..] + b;
      assert FirstFree(a, used) == 1 + FirstFree(a[1..], used);
    }
  }

  /** Scanning a range from `port` on: `port` itself unless it is in use, else the ports after it. */
  lemma ScanPort(port: nat, end: nat, used: set<int>)
    requires port < end
    ensures FirstUnused(RangePorts(PortRange(port, end)), used) ==
      if port !in used then port else FirstUnused(RangePorts(PortRange(port + 1, end)), used)
  {
    var rest := RangePorts(PortRange(port + 1, end));
    assert RangePorts(PortRange(port, end)) == [port] + rest;
    FirstUnusedAppend([port], rest, used);
    assert FirstFree([port], used) == if port in used then 1 else 0 by {
      assert [port][1..] == [];
    }
  }

  /** Scanning ranges from range `j` on: range `j` first, then the ranges after it. */
  lemma ScanRange(rs: seq<PortRange>, j: nat, used: set<int>)
    requires j < |rs|
    ensures FirstUnused(RangesPorts(rs[j..]), used) ==
      var p := FirstUnused(RangePorts(rs[j]), used);
      if p != NoPort then p else FirstUnused(RangesPorts(rs[j + 1..]), used)
  {
    assert rs[j..][1..] == rs[j + 1..];
    FirstUnusedAppend(RangePorts(rs[j]), RangesPorts(rs[j + 1..]), used);
  }

  /** Scanning an offer from resource `i` on: resource `i` first, then the resources after it. */
  lemma ScanResource(offer: Offer, i: nat, used: set<int>)
    requires i < |offer|
    ensures FirstUnused(Candidates(offer[i..]), used) ==
      var p := FirstUnused(ResourcePorts(offer[i]), used);
      if p != NoPort then p else FirstUnused(Candidates(offer[i + 1..]), used)
  {
    assert offer[i..][1..] == offer[i + 1..];
    FirstUnusedAppend(ResourcePorts(offer[i]), Candidates(offer[i + 1..]), used);
  }

  /**
   The port the picker chooses from `offer` when `used` holds the ports
   already assigned, or `NoPort`: the first free candidate in scan order.
   */
  function PickPort(offer: Offer, used: set<int>): int
  {
    FirstUnused(Candidates(offer), used)
  }

  /**
   A picked port is offered under "ports" and not in use, and every
   candidate scanned before it is in use; nothing is picked exactly when
   every offered port is in use.
   */
  lemma PickPortSpec(offer: Offer, used: set<int>)
    ensures PickPort(offer, used) != NoPort ==> Offered(offer, PickPort(offer, used)) && PickPort(offer, used) !in used
    ensures PickPort(offer, used) == NoPort <==> forall q :: Offered(offer, q) ==> q in used
    ensures PickPort(offer, used) != NoPort ==> FreeAfterUsedPrefix(Candidates(offer), used, PickPort(offer, used))
  {
    CandidatesOffered(offer);
    FirstUnusedSpec(Candidates(offer), used);
    var p := PickPort(offer, used);
    if p != NoPort {
      var k :| 0 <= k < |Candidates(offer)| && Candidates(offer)[k] == p &&
        forall j :: 0 <= j < k ==> Candidates(offer)[j] in used;
      assert p in Candidates(offer);
    }
  }

  /** An offer with a CPU resource and the port ranges [0, 4) and [11, 15). */
  const ExampleOffer: Offer := [Resource("cpus", []), Resource(PortsName, [PortRange(0, 4), PortRange(11, 15)])]

  /** The candidates of the example offer in scan order. */
  lemma ExampleCandidates()
    ensures Candidates(ExampleOffer) == [0, 1, 2, 3, 11, 12, 13, 14]
  {
    var ranges := ExampleOffer[1].ranges;
    assert RangePorts(PortRange(0, 4)) == [0, 1, 2, 3];
    assert RangePorts(PortRange(11, 15)) == [11, 12, 13, 14];
    assert RangesPorts(ranges[1..]) == [11, 12, 13, 14] by {
      assert ranges[1..][1..] == [];
    }
    assert Candidates(ExampleOffer[1..]) == RangesPorts(ranges) by {
      assert ExampleOffer[1..][1..] == [];
    }
  }

  /**
   Successive picks over the example offer with no earlier assignment give
   0, 1, 2, 3 and then 11.
   */
  lemma ScanOrderExample()
    ensures PickPort(ExampleOffer, {}) == 0 && PickPort(ExampleOffer, {0}) == 1
    ensures PickPort(ExampleOffer, {0, 1}) == 2 && PickPort(ExampleOffer, {0, 1, 2}) == 3
    ensures PickPort(ExampleOffer, {0, 1, 2, 3}) == 11
  {
    ExampleCandidates();
    var c := Candidates(ExampleOffer);
    FirstFreeAt(c, 0, {});
    FirstFreeAt(c, 1, {0});
    FirstFreeAt(c, 2, {0, 1});
    FirstFreeAt(c, 3, {0, 1, 2});
    FirstFreeAt(c, 4, {0, 1, 2, 3});
    assert c[4] == 11;
  }
}
